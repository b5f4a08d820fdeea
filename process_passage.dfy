/** The chlorophyll export of one OLCI passage: the pixel flag rule with
    the thirteen-flag list, the rule that skips passages with oversized
    files, the two `where` passes that blank pixels outside the coastal
    zone or flagged, and the name of the written raster. */
module PassageProcessing {
  import opened Common
  import opened Flags

  /** The eleven-flag list the script keeps beside the one it uses; it is
      the list `get_mask` uses. */
  const FLAGS002: seq<string> := [
    "INVALID", "SNOW_ICE", "INLAND_WATER", "SUSPECT", "AC_FAIL",
    "CLOUD", "HISOLZEN", "CLOUD_MARGIN", "CLOUD_AMBIGUOUS", "LOWRW", "LAND"]

  /** The thirteen-flag list a pixel is rejected for. */
  const FLAGS003: seq<string> := [
    "INVALID", "SNOW_ICE", "INLAND_WATER", "SUSPECT", "AC_FAIL", "CLOUD",
    "HISOLZEN", "CLOUD_MARGIN", "CLOUD_AMBIGUOUS", "COASTLINE", "LAND",
    "TURBID_ATM", "LOWRW"]

  /** `get_flag_mask(scene)`: a pixel is flagged when its `wqsf` word has a
      bit of any of the thirteen flags; a product whose flag table lacks one
      of them raises KeyError (there is no fallback to the eleven flags). */
  method GetFlagMask(flagMasks: seq<Word>, flagMeanings: string, wqsf: seq<Word>) returns (r: Result<seq<bool>>)
    ensures r.Err? <==> !AllKnown(ZipMap(Words(flagMeanings), flagMasks), FLAGS003)
    ensures r.Err? ==> r.error == KeyError
    ensures r.Ok? ==> |r.value| == |wqsf|
    ensures r.Ok? ==> forall i :: 0 <= i < |wqsf| ==>
      (r.value[i] <==> Flagged(ZipMap(Words(flagMeanings), flagMasks), FLAGS003, wqsf[i]))
  {
    var bflags := new BitFlags(flagMasks, Words(flagMeanings));
    r := bflags.MatchAny(FLAGS003, wqsf);
  }

  /** The thirteen flags are the eleven plus COASTLINE and TURBID_ATM, so
      with one flag table a pixel flagged by the eleven is flagged by the
      thirteen, and a table that knows the thirteen knows the eleven. */
  lemma {:induction false} Flags002Within003(flagMap: map<string, Word>, x: Word)
    ensures Flagged(flagMap, FLAGS002, x) ==> Flagged(flagMap, FLAGS003, x)
    ensures AllKnown(flagMap, FLAGS003) ==> AllKnown(flagMap, FLAGS002)
  {
    assert forall j :: 0 <= j < |FLAGS002| ==> FLAGS002[j] in FLAGS003;
    if Flagged(flagMap, FLAGS002, x) {
      var j :| 0 <= j < |FLAGS002| && FLAGS002[j] in flagMap && Shares(x, flagMap[FLAGS002[j]]);
      var k :| 0 <= k < |FLAGS003| && FLAGS003[k] == FLAGS002[j];
    }
  }

  /** The two extra flags make the difference: a table with all the flags
      but COASTLINE serves the eleven and refuses the thirteen. */
  lemma {:induction false} MissingCoastline(flagMap: map<string, Word>)
    requires AllKnown(flagMap, FLAGS002) && "COASTLINE" !in flagMap
    ensures !AllKnown(flagMap, FLAGS003)
  {
    assert FLAGS003[9] == "COASTLINE";
  }

  const MIB: nat := 1024 * 1024

  /** A file size in bytes, in MiB (`st_size / 1024**2`). */
  function MiB(bytes: nat): real {
    bytes as real / MIB as real
  }

  /** The running maximum of the `olci_l2` file sizes in MiB, from 0. */
  method LargestSize(sizes: seq<nat>) returns (size: real)
    ensures forall i :: 0 <= i < |sizes| ==> MiB(sizes[i]) <= size
    ensures size == 0.0 || exists i :: 0 <= i < |sizes| && size == MiB(sizes[i])
  {
    size := 0.0;
    for i := 0 to |sizes|
      invariant forall k :: 0 <= k < i ==> MiB(sizes[k]) <= size
      invariant size == 0.0 || exists k :: 0 <= k < i && size == MiB(sizes[k])
    {
      var s := MiB(sizes[i]);
      if s > size {
        size := s;
      }
    }
  }

  /** A passage is skipped exactly when one of its files is larger than
      100 MiB, that is than 104857600 bytes. */
  method Skipped(sizes: seq<nat>) returns (skip: bool)
    ensures skip <==> exists i :: 0 <= i < |sizes| && sizes[i] > 104857600
  {
    var size := LargestSize(sizes);
    skip := size > 100.0;
    if skip && size != 0.0 {
      var i :| 0 <= i < |sizes| && size == MiB(sizes[i]);
      assert sizes[i] > 104857600;
    }
  }

  /** A chlorophyll pixel; None is NaN. */
  type Pixel = Option<real>

  /** `layer.where(keep, np.nan)`: a pixel is kept where `keep` holds and
      becomes NaN elsewhere. */
  function Where(layer: seq<Pixel>, keep: seq<bool>): (r: seq<Pixel>)
    requires |layer| == |keep|
    ensures |r| == |layer|
    ensures forall i :: 0 <= i < |r| ==> r[i] == if keep[i] then layer[i] else None
  {
    seq(|layer|, i requires 0 <= i < |layer| => if keep[i] then layer[i] else None)
  }

  /** The pixels the export keeps: inside the coastal zone and not flagged. */
  function KeepMask(coastal: seq<int>, flagged: seq<bool>): (r: seq<bool>)
    requires |coastal| == |flagged|
    ensures |r| == |coastal|
    ensures forall i :: 0 <= i < |r| ==> (r[i] <==> coastal[i] > 0 && !flagged[i])
  {
    seq(|coastal|, i requires 0 <= i < |coastal| => coastal[i] > 0 && !flagged[i])
  }

  /** Two `where` passes are one pass with both conditions, whichever
      comes first. */
  lemma {:induction false} WhereTwice(layer: seq<Pixel>, a: seq<bool>, b: seq<bool>)
    requires |layer| == |a| == |b|
    ensures Where(Where(layer, a), b) == Where(Where(layer, b), a)
    ensures Where(Where(layer, a), b) == Where(layer, seq(|a|, i requires 0 <= i < |a| => a[i] && b[i]))
  {
    var both := seq(|a|, i requires 0 <= i < |a| => a[i] && b[i]);
    assert Where(Where(layer, a), b) == Where(layer, both);
    assert Where(Where(layer, b), a) == Where(layer, both);
  }

  /** Applying the mask once more changes nothing. */
  lemma {:induction false} WhereIdempotent(layer: seq<Pixel>, keep: seq<bool>)
    requires |layer| == |keep|
    ensures Where(Where(layer, keep), keep) == Where(layer, keep)
  {
    assert Where(Where(layer, keep), keep) == Where(layer, keep);
  }

  /** One `where` pass on the layer, in place. */
  method ApplyWhere(layer: array<Pixel>, keep: seq<bool>)
    requires layer.Length == |keep|
    modifies layer
    ensures layer[..] == Where(old(layer[..]), keep)
  {
    for i := 0 to layer.Length
      invariant forall k :: 0 <= k < i ==> layer[k] == if keep[k] then old(layer[k]) else None
      invariant forall k :: i <= k < layer.Length ==> layer[k] == old(layer[k])
    {
      if !keep[i] {
        layer[i] := None;
      }
    }
  }

  /** The two passes of the export: outside the coastal zone, then where
      flagged; a pixel keeps its value exactly when it is in the zone and
      not flagged. */
  method MaskLayer(layer: array<Pixel>, coastal: seq<int>, flagged: seq<bool>)
    requires layer.Length == |coastal| == |flagged|
    modifies layer
    ensures layer[..] == Where(old(layer[..]), KeepMask(coastal, flagged))
  {
    var inZone := seq(|coastal|, i requires 0 <= i < |coastal| => coastal[i] > 0);
    var unflagged := seq(|flagged|, i requires 0 <= i < |flagged| => flagged[i] != true);
    ghost var before := layer[..];
    ApplyWhere(layer, inZone);
    ApplyWhere(layer, unflagged);
    WhereTwice(before, inZone, unflagged);
    assert seq(|inZone|, i requires 0 <= i < |inZone| => inZone[i] && unflagged[i]) == KeepMask(coastal, flagged);
  }

  /** A scene's start time. */
  datatype DateTime = DateTime(year: nat, month: nat, day: nat, hour: nat, minute: nat)

  /** The ranges of Python's `datetime` fields. */
  predicate ValidTime(t: DateTime) {
    1 <= t.year <= 9999 && 1 <= t.month <= 12 && 1 <= t.day <= 31 && t.hour < 24 && t.minute < 60
  }

  function DigitChar(d: nat): char
    requires d < 10
  {
    ('0' as int + d) as char
  }

  function DigitOf(c: char): int {
    c as int - '0' as int
  }

  /** A number below 100 as two digits, zero padded. */
  function Pad2(n: nat): (r: string)
    requires n < 100
    ensures |r| == 2
  {
    [DigitChar(n / 10), DigitChar(n % 10)]
  }

  /** A number below 10000 as four digits, zero padded. */
  function Pad4(n: nat): (r: string)
    requires n < 10000
    ensures |r| == 4
  {
    Pad2(n / 100) + Pad2(n % 100)
  }

  function Read2(s: string): int
    requires |s| == 2
  {
    10 * DigitOf(s[0]) + DigitOf(s[1])
  }

  function Read4(s: string): int
    requires |s| == 4
  {
    100 * Read2(s[..2]) + Read2(s[2..])
  }

  /** `strftime('%Y%m%d_%H%M')`. */
  function Stamp(t: DateTime): (r: string)
    requires ValidTime(t)
    ensures |r| == 13
  {
    Pad4(t.year) + Pad2(t.month) + Pad2(t.day) + "_" + Pad2(t.hour) + Pad2(t.minute)
  }

  /** `'_'.join((passage, stamp, 'chl_nn'))`. */
  function OutputName(passage: string, t: DateTime): string
    requires ValidTime(t)
  {
    Join([passage, Stamp(t), "chl_nn"], "_")
  }

  /** The passage and start time read back from an output name: the last
      twenty characters are `_`, the stamp, `_chl_nn`. */
  function ParseOutputName(name: string): (r: Option<(string, DateTime)>)
    ensures r.Some? ==> |name| >= 21 && name[|name| - 7..] == "_chl_nn" && name[|name| - 21] == '_'
  {
    if |name| < 21 || name[|name| - 7..] != "_chl_nn" || name[|name| - 21] != '_' then None
    else
      var s := name[|name| - 20..|name| - 7];
      if s[8] != '_' then None
      else
        Some((name[..|name| - 21],
              DateTime(Nat(Read4(s[..4])), Nat(Read2(s[4..6])), Nat(Read2(s[6..8])),
                       Nat(Read2(s[9..11])), Nat(Read2(s[11..])))))
  }

  function Nat(x: int): nat {
    if x < 0 then 0 else x
  }

  lemma Read2Pad2(n: nat)
    requires n < 100
    ensures Read2(Pad2(n)) == n
  {
  }

  lemma {:induction false} Read4Pad4(n: nat)
    requires n < 10000
    ensures Read4(Pad4(n)) == n
  {
    var s := Pad4(n);
    assert s[..2] == Pad2(n / 100) && s[2..] == Pad2(n % 100);
    Read2Pad2(n / 100);
    Read2Pad2(n % 100);
  }

  /** The output name gives back its passage and the start time to the
      minute, whatever the passage's name. */
  lemma {:induction false} OutputNameRoundTrip(passage: string, t: DateTime)
    requires ValidTime(t)
    ensures ParseOutputName(OutputName(passage, t)) == Some((passage, t))
  {
    var st := Stamp(t);
    var name := OutputName(passage, t);
    var parts := [passage, st, "chl_nn"];
    assert parts[1..] == [st, "chl_nn"] && parts[1..][1..] == ["chl_nn"];
    assert Join(parts[1..], "_") == st + "_" + "chl_nn";
    assert name == passage + "_" + (st + "_" + "chl_nn");
    assert name == passage + "_" + st + "_chl_nn";
    assert name[..|name| - 21] == passage;
    assert name[|name| - 21] == '_';
    assert name[|name| - 20..|name| - 7] == st;
    assert name[|name| - 7..] == "_chl_nn";
    Read4Pad4(t.year);
    Read2Pad2(t.month);
    Read2Pad2(t.day);
    Read2Pad2(t.hour);
    Read2Pad2(t.minute);
    assert st[..4] == Pad4(t.year) && st[4..6] == Pad2(t.month) && st[6..8] == Pad2(t.day);
    assert st[8] == '_' && st[9..11] == Pad2(t.hour) && st[11..] == Pad2(t.minute);
  }

  /** Distinct passages or start times give distinct file names, so no
      export overwrites another. */
  lemma OutputNameInjective(p1: string, t1: DateTime, p2: string, t2: DateTime)
    requires ValidTime(t1) && ValidTime(t2)
    requires OutputName(p1, t1) == OutputName(p2, t2)
    ensures p1 == p2 && t1 == t2
  {
    OutputNameRoundTrip(p1, t1);
    OutputNameRoundTrip(p2, t2);
  }

  /** Per pixel, whether the thirteen flags reject it under the product's
      flag table. */
  function PixelFlags(flagMasks: seq<Word>, flagMeanings: string, wqsf: seq<Word>): (r: seq<bool>)
    ensures |r| == |wqsf|
  {
    seq(|wqsf|, i requires 0 <= i < |wqsf| => Flagged(ZipMap(Words(flagMeanings), flagMasks), FLAGS003, wqsf[i]))
  }

  /** The export of one passage: skipped (None) when a file is larger than
      100 MiB; otherwise the flag mask is computed (a KeyError when the
      product lacks one of the thirteen flags), the layer is blanked
      outside the coastal zone and where flagged, and the output name is
      returned.  The layer is untouched unless the export goes through. */
  method ProcessPassage(sizes: seq<nat>, passage: string, start: DateTime,
                        flagMasks: seq<Word>, flagMeanings: string, wqsf: seq<Word>,
                        coastal: seq<int>, layer: array<Pixel>)
    returns (r: Result<Option<string>>)
    requires ValidTime(start)
    requires layer.Length == |coastal| == |wqsf|
    modifies layer
    ensures r == Ok(None) <==> exists i :: 0 <= i < |sizes| && sizes[i] > 104857600
    ensures r.Err? <==>
              && (forall i :: 0 <= i < |sizes| ==> sizes[i] <= 104857600)
              && !AllKnown(ZipMap(Words(flagMeanings), flagMasks), FLAGS003)
    ensures r.Err? ==> r.error == KeyError
    ensures r.Ok? && r.value.Some? ==> r.value.value == OutputName(passage, start)
    ensures r.Ok? && r.value.Some? ==>
              layer[..] == Where(old(layer[..]), KeepMask(coastal, PixelFlags(flagMasks, flagMeanings, wqsf)))
    ensures !(r.Ok? && r.value.Some?) ==> layer[..] == old(layer[..])
  {
    var skip := Skipped(sizes);
    if skip {
      return Ok(None);
    }
    var mask := GetFlagMask(flagMasks, flagMeanings, wqsf);
    if mask.Err? {
      return Err(mask.error);
    }
    MaskLayer(layer, coastal, mask.value);
    assert mask.value == PixelFlags(flagMasks, flagMeanings, wqsf);
    r := Ok(Some(OutputName(passage, start)));
  }
}
