/** Quality flags stored bitwise: an OLCI product's `wqsf` layer holds one
    word per pixel, and its `flag_meanings`/`flag_masks` attributes name the
    bits.  A pixel is flagged by a list of flag names when its word shares a
    bit with the OR of their masks. */
module Flags {
  import opened Common

  /** A `wqsf` word or a flag mask. */
  type Word = bv64

  /** `dict(zip(meanings, masks))`: names paired with masks by position,
      surplus entries of the longer list dropped, a repeated name keeping the
      last of its masks. */
  function ZipMap(meanings: seq<string>, masks: seq<Word>): map<string, Word>
    decreases |meanings|
  {
    var n := Min(|meanings|, |masks|);
    if n == 0 then map[]
    else ZipMap(meanings[..n - 1], masks[..n - 1])[meanings[n - 1] := masks[n - 1]]
  }

  /** The names of the table are the first min(|meanings|, |masks|) meanings. */
  lemma {:induction false} ZipMapKeys(meanings: seq<string>, masks: seq<Word>, name: string)
    ensures name in ZipMap(meanings, masks) <==>
      exists j :: 0 <= j < Min(|meanings|, |masks|) && meanings[j] == name
    decreases |meanings|
  {
    var n := Min(|meanings|, |masks|);
    if n > 0 {
      var ms, ks := meanings[..n - 1], masks[..n - 1];
      ZipMapKeys(ms, ks, name);
      assert Min(|ms|, |ks|) == n - 1;
      if exists j :: 0 <= j < n - 1 && ms[j] == name {
        var j :| 0 <= j < n - 1 && ms[j] == name;
        assert meanings[j] == name;
      }
      if exists j :: 0 <= j < n && meanings[j] == name {
        var j :| 0 <= j < n && meanings[j] == name;
        if j < n - 1 {
          assert ms[j] == name;
        }
      }
    }
  }

  /** Each name of the table keeps the mask at the last position the name
      has among the first min(|meanings|, |masks|) meanings. */
  lemma {:induction false} ZipMapLast(meanings: seq<string>, masks: seq<Word>, name: string)
    requires name in ZipMap(meanings, masks)
    ensures exists j ::
              0 <= j < Min(|meanings|, |masks|) && meanings[j] == name &&
              ZipMap(meanings, masks)[name] == masks[j] &&
              forall j' :: j < j' < Min(|meanings|, |masks|) ==> meanings[j'] != name
    decreases |meanings|
  {
    var n := Min(|meanings|, |masks|);
    var ms, ks := meanings[..n - 1], masks[..n - 1];
    assert Min(|ms|, |ks|) == n - 1;
    if meanings[n - 1] != name {
      ZipMapLast(ms, ks, name);
      var j :| 0 <= j < n - 1 && ms[j] == name && ZipMap(ms, ks)[name] == ks[j]
        && forall j' :: j < j' < n - 1 ==> ms[j'] != name;
      assert meanings[j] == name && masks[j] == ks[j];
    }
  }

  /** `reduce(np.bitwise_or, masks)`: the OR of a non-empty list, folded from
      the left. */
  function OrFold(ms: seq<Word>): Word
    requires |ms| > 0
    decreases |ms|
  {
    if |ms| == 1 then ms[0] else OrFold(ms[..|ms| - 1]) | ms[|ms| - 1]
  }

  /** Whether a word has a bit of a mask. */
  predicate Shares(x: Word, m: Word) {
    x & m != 0
  }

  /** Sharing a bit with `a | b` is sharing a bit with `a` or with `b`. */
  lemma {:induction false} AndOr(x: Word, a: Word, b: Word)
    ensures Shares(x, a | b) <==> Shares(x, a) || Shares(x, b)
  {
    assert x & (a | b) == (x & a) | (x & b);
  }

  /** A word that shares a bit with the OR of some masks shares one with
      one of them. */
  lemma {:induction false} OrFoldSome(x: Word, ms: seq<Word>) returns (j: nat)
    requires |ms| > 0 && Shares(x, OrFold(ms))
    ensures j < |ms| && Shares(x, ms[j])
    decreases |ms|
  {
    if |ms| == 1 {
      j := 0;
    } else {
      var init, last := ms[..|ms| - 1], ms[|ms| - 1];
      AndOr(x, OrFold(init), last);
      if Shares(x, last) {
        j := |ms| - 1;
      } else {
        j := OrFoldSome(x, init);
        assert ms[j] == init[j];
      }
    }
  }

  /** A word that shares a bit with one of some masks shares one with their OR. */
  lemma {:induction false} OrFoldEach(x: Word, ms: seq<Word>, j: nat)
    requires j < |ms| && Shares(x, ms[j])
    ensures Shares(x, OrFold(ms))
    decreases |ms|
  {
    if |ms| > 1 {
      var init, last := ms[..|ms| - 1], ms[|ms| - 1];
      AndOr(x, OrFold(init), last);
      if j < |ms| - 1 {
        assert init[j] == ms[j];
        OrFoldEach(x, init, j);
      }
    }
  }

  /** A word shares a bit with the OR of some masks exactly when it shares a
      bit with one of them. */
  lemma {:induction false} OrFoldShares(x: Word, ms: seq<Word>)
    requires |ms| > 0
    ensures Shares(x, OrFold(ms)) <==> exists j :: 0 <= j < |ms| && Shares(x, ms[j])
  {
    if Shares(x, OrFold(ms)) {
      var j := OrFoldSome(x, ms);
    }
    if exists j :: 0 <= j < |ms| && Shares(x, ms[j]) {
      var j :| 0 <= j < |ms| && Shares(x, ms[j]);
      OrFoldEach(x, ms, j);
    }
  }

  /** Every name of the list has a mask in the table. */
  predicate AllKnown(flagMap: map<string, Word>, names: seq<string>) {
    forall j :: 0 <= j < |names| ==> names[j] in flagMap
  }

  /** A word is flagged by a list of names when it shares a bit with the
      mask of one of them. */
  predicate Flagged(flagMap: map<string, Word>, names: seq<string>, x: Word) {
    exists j :: 0 <= j < |names| && names[j] in flagMap && Shares(x, flagMap[names[j]])
  }

  /** With every name known, being flagged is sharing a bit with one of the
      names' masks listed in order. */
  lemma {:induction false} FlaggedMasks(flagMap: map<string, Word>, names: seq<string>, ms: seq<Word>, x: Word)
    requires AllKnown(flagMap, names)
    requires |ms| == |names| && forall j :: 0 <= j < |ms| ==> ms[j] == flagMap[names[j]]
    ensures Flagged(flagMap, names, x) <==> exists j :: 0 <= j < |ms| && Shares(x, ms[j])
  {
    if exists j :: 0 <= j < |ms| && Shares(x, ms[j]) {
      var j :| 0 <= j < |ms| && Shares(x, ms[j]);
      assert names[j] in flagMap && Shares(x, flagMap[names[j]]);
    }
  }

  /** The flag table of one product. */
  class BitFlags {
    const masks: seq<Word>
    const meanings: seq<string>
    const flagMap: map<string, Word>

    constructor (masks: seq<Word>, meanings: seq<string>)
      ensures this.masks == masks && this.meanings == meanings
      ensures flagMap == ZipMap(meanings, masks)
    {
      this.masks := masks;
      this.meanings := meanings;
      flagMap := ZipMap(meanings, masks);
    }

    /** Per element of `data`, whether it has a bit of the mask of `item`;
        an unknown name raises KeyError. */
    function MatchItem(item: string, data: seq<Word>): (r: Result<seq<bool>>)
      ensures r.Err? <==> item !in flagMap
      ensures r.Err? ==> r.error == KeyError
      ensures r.Ok? ==> |r.value| == |data|
      ensures r.Ok? ==> forall i :: 0 <= i < |data| ==> (r.value[i] <==> Flagged(flagMap, [item], data[i]))
    {
      if item !in flagMap then Err(KeyError)
      else
        var mask := flagMap[item];
        var r := seq(|data|, i requires 0 <= i < |data| => Shares(data[i], mask));
        assert forall i :: 0 <= i < |data| ==> (r[i] <==> Flagged(flagMap, [item], data[i])) by {
          forall i | 0 <= i < |data|
            ensures r[i] <==> Flagged(flagMap, [item], data[i])
          {
            if Shares(data[i], mask) {
              assert [item][0] == item;
            }
          }
        }
        Ok(r)
    }

    /** Per element of `data`, whether it has a bit of the OR of the masks
        of `items`.  The list of masks is built first, so an unknown name
        raises KeyError; `reduce` without an initial value then raises
        TypeError on an empty list. */
    function MatchAny(items: seq<string>, data: seq<Word>): (r: Result<seq<bool>>)
      ensures r.Err? <==> |items| == 0 || !AllKnown(flagMap, items)
      ensures r.Err? ==> r.error == if AllKnown(flagMap, items) then TypeError else KeyError
      ensures r.Ok? ==> |r.value| == |data|
      ensures r.Ok? ==> forall i :: 0 <= i < |data| ==> (r.value[i] <==> Flagged(flagMap, items, data[i]))
    {
      if !AllKnown(flagMap, items) then Err(KeyError)
      else if |items| == 0 then Err(TypeError)
      else
        var ms := seq(|items|, j requires 0 <= j < |items| => flagMap[items[j]]);
        var mask := OrFold(ms);
        var r := seq(|data|, i requires 0 <= i < |data| => Shares(data[i], mask));
        assert forall i :: 0 <= i < |data| ==> (r[i] <==> Flagged(flagMap, items, data[i])) by {
          forall i | 0 <= i < |data|
            ensures r[i] <==> Flagged(flagMap, items, data[i])
          {
            OrFoldShares(data[i], ms);
            FlaggedMasks(flagMap, items, ms, data[i]);
          }
        }
        Ok(r)
    }
  }

  /** `match_item` on a name gives what `match_any` gives on the one-name list. */
  lemma {:induction false} MatchItemIsMatchAnyOfOne(b: BitFlags, item: string, data: seq<Word>)
    ensures b.MatchItem(item, data) == b.MatchAny([item], data)
  {
    var r1, r2 := b.MatchItem(item, data), b.MatchAny([item], data);
    if r1.Ok? {
      assert |r1.value| == |r2.value|;
      forall i | 0 <= i < |data|
        ensures r1.value[i] == r2.value[i]
      {
      }
    }
  }

  /** Adding names to the list never unflags a pixel: when every name of
      `fewer` is also in `more`, a pixel flagged by `fewer` is flagged by
      `more`. */
  lemma {:induction false} MatchAnyMonotone(b: BitFlags, fewer: seq<string>, more: seq<string>, data: seq<Word>)
    requires forall j :: 0 <= j < |fewer| ==> fewer[j] in more
    requires b.MatchAny(fewer, data).Ok? && b.MatchAny(more, data).Ok?
    ensures forall i :: 0 <= i < |data| && b.MatchAny(fewer, data).value[i] ==> b.MatchAny(more, data).value[i]
  {
    forall i | 0 <= i < |data| && b.MatchAny(fewer, data).value[i]
      ensures b.MatchAny(more, data).value[i]
    {
      var j :| 0 <= j < |fewer| && fewer[j] in b.flagMap && Shares(data[i], b.flagMap[fewer[j]]);
      var k :| 0 <= k < |more| && more[k] == fewer[j];
      assert Flagged(b.flagMap, more, data[i]);
    }
  }

  /** The flags `get_mask` rejects pixels for. */
  const GET_MASK_FLAGS: seq<string> := [
    "INVALID", "SNOW_ICE", "INLAND_WATER", "SUSPECT",
    "AC_FAIL", "CLOUD", "HISOLZEN", "CLOUD_MARGIN",
    "CLOUD_AMBIGUOUS", "LOWRW", "LAND"]

  /** `get_mask(scene)`: the flag table is read from the `wqsf` layer's
      `flag_masks` and its whitespace-separated `flag_meanings`; a pixel is
      flagged when its `wqsf` word has a bit of any of the eleven flags, and
      a product that lacks one of them raises KeyError. */
  method GetMask(flagMasks: seq<Word>, flagMeanings: string, wqsf: seq<Word>) returns (r: Result<seq<bool>>)
    ensures r.Err? <==> !AllKnown(ZipMap(Words(flagMeanings), flagMasks), GET_MASK_FLAGS)
    ensures r.Err? ==> r.error == KeyError
    ensures r.Ok? ==> |r.value| == |wqsf|
    ensures r.Ok? ==> forall i :: 0 <= i < |wqsf| ==>
      (r.value[i] <==> Flagged(ZipMap(Words(flagMeanings), flagMasks), GET_MASK_FLAGS, wqsf[i]))
  {
    var bflags := new BitFlags(flagMasks, Words(flagMeanings));
    r := bflags.MatchAny(GET_MASK_FLAGS, wqsf);
  }
}
