/**
 From an upload to its activation signature: what an emitted upload leaves in the Z80 RAM, and which bytes it
 wrote, determine the signature; raw and encoded uploads of one program have the same.
 */
module UploadedEpoch {
  import opened Basics
  import opened Mc68000
  import opened FixtureRom
  import E = EpochSignature

  ghost function Z80Bytes(mem: Memory, n: nat): (r: seq<Byte>)
    ensures |r| == n && forall i :: 0 <= i < n ==> r[i] == Read(mem, Z80_RAM + i)
  {
    if n == 0 then [] else Z80Bytes(mem, n - 1) + [Read(mem, Z80_RAM + n - 1)]
  }

  /** The Z80 RAM in a memory. */
  ghost function RamOf(mem: Memory): E.Ram {
    Z80Bytes(mem, E.RAM_BYTES)
  }

  /** The bitmap marks exactly the bytes of the Z80 RAM that were stored to. */
  ghost predicate Marks(w: E.Bitmap, touched: set<nat>) {
    forall i :: 0 <= i < E.RAM_BYTES ==> (E.Written(w, i) <==> Z80_RAM + i in touched)
  }

  /** The epoch an upload of `program` makes: exactly its bytes are written, and they are there. */
  ghost predicate EpochOf(program: seq<Byte>, ram: E.Ram, w: E.Bitmap) {
    && |program| <= E.RAM_BYTES
    && (forall i :: 0 <= i < E.RAM_BYTES ==> (E.Written(w, i) <==> i < |program|))
    && (forall i :: 0 <= i < |program| ==> ram[i] == program[i])
  }

  /** An upload somewhere in a resolved program: where its code and its data were emitted, and how it is encoded. */
  datatype Upload = Upload(rom: Asm, code: Asm, data: Asm, programLabel: string, loop: string, key: Option<Byte>, words: seq<nat>)

  /** The CPU is about to run this upload of `program`. */
  ghost predicate About(u: Upload, program: seq<Byte>, s: Cpu) {
    && Loader(u.rom, u.code, u.data, u.programLabel, u.loop, program, u.key)
    && InReach(u.code, u.data, u.programLabel, u.loop, program, u.key)
    && Resolved(u.rom, u.words) && Holds(s.mem, u.rom.base, u.words) && s.pc == Pc(u.code)
  }

  /** `ram` and `w` are what the upload leaves in the Z80 RAM and which of its bytes it wrote. */
  ghost predicate Leaves(u: Upload, program: seq<Byte>, s: Cpu, ram: E.Ram, w: E.Bitmap) {
    var steps := UploadSteps(|program|, u.key);
    && Run(s, steps).Some?
    && ram == RamOf(Run(s, steps).value.mem) && Marks(w, Touched(s, steps))
  }

  /** Whatever surrounds it, an upload runs through and makes the epoch of its program. */
  lemma UploadMakesEpoch(u: Upload, program: seq<Byte>, s: Cpu, ram: E.Ram, w: E.Bitmap)
    requires About(u, program, s)
    ensures Run(s, UploadSteps(|program|, u.key)).Some?
    ensures Leaves(u, program, s, ram, w) ==> EpochOf(program, ram, w)
  {
    hide Loader, Resolved, Holds, Run, Touched, Read, E.Written, Uploading;
    UploadLoads(u.rom, u.code, u.data, u.programLabel, u.loop, program, u.key, u.words, s);
    var t := Run(s, UploadSteps(|program|, u.key)).value;
    if Leaves(u, program, s, ram, w) {
      forall i | 0 <= i < E.RAM_BYTES ensures E.Written(w, i) <==> i < |program| {
        assert Z80_RAM + i in Span(Z80_RAM, |program|) <==> i < |program|;
      }
      forall i | 0 <= i < |program| ensures ram[i] == program[i] {
        assert Read(t.mem, Z80_RAM + i) == program[i];
      }
    }
  }

  lemma SameLength(p: seq<Byte>, q: seq<Byte>, r: E.Ram, v: E.Bitmap, s: E.Ram, w: E.Bitmap)
    requires EpochOf(p, r, v) && EpochOf(q, s, w) && E.SameView(r, v, s, w)
    ensures |p| == |q|
  {
    hide E.Written;
    var shorter := if |p| < |q| then |p| else |q|;
    if shorter < E.RAM_BYTES {
      assert E.Written(v, shorter) <==> shorter < |p|;
      assert E.Written(w, shorter) <==> shorter < |q|;
    }
  }

  /** Epochs show the same written part exactly when they were made by the same program. */
  lemma SameViewIsSameProgram(p: seq<Byte>, q: seq<Byte>, r: E.Ram, v: E.Bitmap, s: E.Ram, w: E.Bitmap)
    requires EpochOf(p, r, v) && EpochOf(q, s, w)
    ensures E.SameView(r, v, s, w) <==> p == q
  {
    hide E.Written;
    if E.SameView(r, v, s, w) {
      SameLength(p, q, r, v, s, w);
      forall i | 0 <= i < |p| ensures p[i] == q[i] {
        assert E.Written(v, i);
      }
    }
    if p == q {
      E.SameBitsSameBitmap(v, w);
    }
  }

  /**
   Two uploads, in one program or in two, each raw or through its own key: uploads of one program have one
   activation signature under every digest, and an injective digest tells uploads of different programs apart.
   */
  lemma SameSignatureIffSameProgram<D(!new)>(digest: seq<Byte> -> D, a: Upload, b: Upload, p: seq<Byte>, q: seq<Byte>,
                                             s: Cpu, t: Cpu, r: E.Ram, v: E.Bitmap, m: E.Ram, w: E.Bitmap, x: D, y: D)
    requires About(a, p, s) && Leaves(a, p, s, r, v) && E.IsSignature(digest, x, r, v)
    requires About(b, q, t) && Leaves(b, q, t, m, w) && E.IsSignature(digest, y, m, w)
    ensures p == q ==> x == y
    ensures E.Injective(digest) ==> (x == y <==> p == q)
  {
    hide About, Leaves, EpochOf, E.SameView, E.Injective, E.IsSignature;
    UploadMakesEpoch(a, p, s, r, v);
    UploadMakesEpoch(b, q, t, m, w);
    SameViewIsSameProgram(p, q, r, v, m, w);
    E.SameViewSameSignature(digest, r, v, m, w, x, y);
    if E.Injective(digest) {
      E.SignatureIdentifiesWrittenPart(digest, E.Epoch(r, v), E.Epoch(m, w), x, y);
    }
  }
}
