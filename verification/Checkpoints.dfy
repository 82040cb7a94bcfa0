/** The checkpoint of confirmed roots: which files are accepted, and that saving loses nothing. */
module Checkpoints {
  import opened Basics
  import opened Numerals

  const CHECKPOINT_SCHEMA_VERSION: nat := 1

  /** What is bound to the persisted roots: ROM digest, hints path, digest of the hints file. */
  datatype Binding = Binding(romSha: string, hintsPath: Option<string>, hintsSha: Option<string>)

  /** A checkpoint file as parsed; `Unusable` is a missing, unparseable or wrongly shaped file. */
  datatype CheckpointFile =
    | Unusable
    | Checkpoint(schemaVersion: int, binding: Binding, seeds: seq<string>)

  predicate ValidSeedText(s: string) {
    |s| == 8 && DigitsOf(s, LOWER_HEX)
  }

  /** `_valid_checkpoint_seed_list`, a scan with a set of the seeds met so far. */
  method ValidSeedList(seeds: seq<string>) returns (ok: bool)
    ensures ok <==> (forall s :: s in seeds ==> ValidSeedText(s))
                    && (forall i, j :: 0 <= i < j < |seeds| ==> seeds[i] != seeds[j])
  {
    var seen: set<string> := {};
    for k := 0 to |seeds|
      invariant forall s :: s in seen <==> s in seeds[..k]
      invariant forall s :: s in seeds[..k] ==> ValidSeedText(s)
      invariant forall i, j :: 0 <= i < j < k ==> seeds[i] != seeds[j]
    {
      if !ValidSeedText(seeds[k]) || seeds[k] in seen {
        return false;
      }
      seen := seen + {seeds[k]};
    }
    assert seeds[..|seeds|] == seeds;
    ok := true;
  }

  function HexSeed(seed: nat): string {
    Padded(Render(seed, LOWER_HEX), 8)
  }

  function Saved(binding: Binding, seeds: seq<nat>): CheckpointFile {
    Checkpoint(CHECKPOINT_SCHEMA_VERSION, binding, seq(|seeds|, i requires 0 <= i < |seeds| => HexSeed(seeds[i])))
  }

  ghost predicate Accepted(file: CheckpointFile, binding: Binding) {
    && file.Checkpoint?
    && file.schemaVersion == CHECKPOINT_SCHEMA_VERSION
    && file.binding == binding
    && (forall s :: s in file.seeds ==> ValidSeedText(s))
    && (forall i, j :: 0 <= i < j < |file.seeds| ==> file.seeds[i] != file.seeds[j])
  }

  /** What `load_checkpoint` must return: the persisted roots, or a fresh start. */
  ghost function Loaded(file: CheckpointFile, binding: Binding): seq<nat> {
    if Accepted(file, binding) then
      seq(|file.seeds|, i requires 0 <= i < |file.seeds| && ValidSeedText(file.seeds[i]) => Parse(file.seeds[i], LOWER_HEX))
    else []
  }

  method LoadCheckpoint(file: CheckpointFile, binding: Binding) returns (seeds: seq<nat>)
    ensures seeds == Loaded(file, binding)
    ensures seeds != [] ==> file.Checkpoint? && file.schemaVersion == CHECKPOINT_SCHEMA_VERSION && file.binding == binding
  {
    if file.Unusable? || file.schemaVersion != CHECKPOINT_SCHEMA_VERSION || file.binding != binding {
      return [];
    }
    var ok := ValidSeedList(file.seeds);
    if !ok {
      return [];
    }
    seeds := seq(|file.seeds|, i requires 0 <= i < |file.seeds| && ValidSeedText(file.seeds[i]) => Parse(file.seeds[i], LOWER_HEX));
  }

  lemma HexSeedFits(n: nat)
    ensures ValidSeedText(HexSeed(n)) <==> n < 0x1_0000_0000
    ensures n < 0x1_0000_0000 ==> Parse(HexSeed(n), LOWER_HEX) == n
  {
    RenderFits(n, 8, LOWER_HEX);
    SixteenToTheEighth();
    ParsePadded(Render(n, LOWER_HEX), 8, LOWER_HEX);
    ParseRender(n, LOWER_HEX);
  }

  lemma SixteenToTheEighth()
    ensures Power(16, 8) == 0x1_0000_0000
  {
    assert Power(16, 2) == 256;
    assert Power(16, 4) == 65536;
    assert Power(16, 6) == 256 * 65536;
  }

  /** Roots saved for one image or hints file are never applied to another, and no other version's are read. */
  lemma ForeignCheckpointIsIgnored(file: CheckpointFile, binding: Binding, other: Binding, seeds: seq<nat>)
    ensures other != binding ==> Loaded(Saved(binding, seeds), other) == []
    ensures file.Checkpoint? && (file.schemaVersion != CHECKPOINT_SCHEMA_VERSION || file.binding != binding) ==>
      Loaded(file, binding) == []
    ensures file.Unusable? ==> Loaded(file, binding) == []
  {
  }

  /** A rejected list is not used in part: one bad or repeated entry discards all. */
  lemma BadListIsIgnored(file: CheckpointFile, binding: Binding, i: nat)
    requires file.Checkpoint? && i < |file.seeds|
    requires !ValidSeedText(file.seeds[i]) || exists j :: 0 <= j < i && file.seeds[j] == file.seeds[i]
    ensures Loaded(file, binding) == []
  {
    hide ValidSeedText;
    assert file.seeds[i] in file.seeds;
  }

  /** Save then load gives the roots back exactly when they are distinct and fit in eight hex digits. */
  lemma CheckpointRoundTrip(binding: Binding, seeds: seq<nat>)
    ensures Loaded(Saved(binding, seeds), binding) == seeds <==> Distinct(seeds) && AllBelow(seeds, 0x1_0000_0000)
  {
    hide Parse, DigitsOf;
    var file := Saved(binding, seeds);
    forall i | 0 <= i < |seeds| ensures ValidSeedText(file.seeds[i]) <==> seeds[i] < 0x1_0000_0000
                                ensures seeds[i] < 0x1_0000_0000 ==> Parse(file.seeds[i], LOWER_HEX) == seeds[i] {
      HexSeedFits(seeds[i]);
    }
    forall i, j | 0 <= i < j < |seeds| ensures file.seeds[i] == file.seeds[j] <==> seeds[i] == seeds[j] {
      if file.seeds[i] == file.seeds[j] {
        PaddedInjective(seeds[i], seeds[j], 8, LOWER_HEX);
      }
    }
    if Accepted(file, binding) {
      forall i | 0 <= i < |seeds| ensures seeds[i] < 0x1_0000_0000 {
        assert file.seeds[i] in file.seeds;
      }
    } else if seeds != [] && Distinct(seeds) && AllBelow(seeds, 0x1_0000_0000) {
      forall s | s in file.seeds ensures ValidSeedText(s) {
        var i :| 0 <= i < |seeds| && file.seeds[i] == s;
        assert seeds[i] in seeds;
      }
      assert false;
    }
  }

  /** Whatever the file holds, the loaded roots are distinct 32-bit numbers. */
  lemma LoadedIsClean(file: CheckpointFile, binding: Binding)
    ensures Distinct(Loaded(file, binding)) && AllBelow(Loaded(file, binding), 0x1_0000_0000)
  {
    hide Parse, Power, IndexOf, DigitsOf;
    if Accepted(file, binding) {
      var seeds := Loaded(file, binding);
      SixteenToTheEighth();
      forall i | 0 <= i < |seeds| ensures seeds[i] < 0x1_0000_0000 {
        assert file.seeds[i] in file.seeds;
        ParseBelow(file.seeds[i], LOWER_HEX);
      }
      forall i, j | 0 <= i < j < |seeds| ensures seeds[i] != seeds[j] {
        assert file.seeds[i] in file.seeds && file.seeds[j] in file.seeds;
        if seeds[i] == seeds[j] {
          ParseInjective(file.seeds[i], file.seeds[j], LOWER_HEX);
        }
      }
    }
  }
}
