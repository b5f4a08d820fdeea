/** Values shared by the whole model: Python's exceptions as error values,
    Option/Result, and the `str` operations the scripts rely on
    (`str.split(sep)`, `str.split()`, `sep.join(...)`, `str.endswith`). */
module Common {

  datatype Option<+T> = None | Some(value: T)

  /** The Python exceptions that the modelled code can raise. */
  datatype Error =
    | KeyError             // dict lookup of a missing key
    | AttributeError       // e.g. `.get` or `.items()` on a value that is not a dict
    | IndexError           // list index out of range
    | TypeError            // e.g. `reduce` of an empty list, item assignment on a non-dict
    | ValueError           // e.g. `argmin` of an empty array
    | AssertionError       // a failing `assert`
    | NotImplementedError  // an abstract method
    | InvalidOperation     // the decimal module's trap

  datatype Result<+T> = Ok(value: T) | Err(error: Error)

  /** `s.endswith(suffix)`. */
  predicate EndsWith(s: string, suffix: string) {
    |suffix| <= |s| && s[|s| - |suffix|..] == suffix
  }

  /** `sep.join(parts)`. */
  function Join(parts: seq<string>, sep: string): (r: string)
    decreases |parts|
  {
    if |parts| == 0 then ""
    else if |parts| == 1 then parts[0]
    else parts[0] + sep + Join(parts[1..], sep)
  }

  /** `s.split(sep)` for a one-character separator: the pieces between the
      occurrences of `sep`, empty pieces included; never an empty list. */
  function Split(s: string, sep: char): (r: seq<string>)
    ensures |r| >= 1
    ensures forall i :: 0 <= i < |r| ==> sep !in r[i]
    decreases |s|
  {
    if |s| == 0 then [""]
    else
      var rest := Split(s[1..], sep);
      if s[0] == sep then [""] + rest
      else [[s[0]] + rest[0]] + rest[1..]
  }

  /** The first piece of `s.split(sep)`: everything before the first `sep`. */
  function UpTo(s: string, sep: char): (r: string)
    ensures sep !in r
  {
    Split(s, sep)[0]
  }

  lemma {:induction false} JoinConsHead(c: char, p: string, tail: seq<string>, sep: string)
    ensures Join([[c] + p] + tail, sep) == [c] + Join([p] + tail, sep)
  {
    if |tail| > 0 {
      assert ([[c] + p] + tail)[1..] == tail;
      assert ([p] + tail)[1..] == tail;
    }
  }

  /** Splitting and joining back with the same separator gives the text back. */
  lemma {:induction false} JoinSplit(s: string, sep: char)
    ensures Join(Split(s, sep), [sep]) == s
    decreases |s|
  {
    if |s| > 0 {
      var rest := Split(s[1..], sep);
      JoinSplit(s[1..], sep);
      if s[0] == sep {
        assert ([""] + rest)[1..] == rest;
        assert s == [sep] + s[1..];
      } else {
        assert rest == [rest[0]] + rest[1..];
        JoinConsHead(s[0], rest[0], rest[1..], [sep]);
        assert s == [s[0]] + s[1..];
      }
    }
  }

  lemma {:induction false} SplitFree(p: string, sep: char)
    requires sep !in p
    ensures Split(p, sep) == [p]
    decreases |p|
  {
    if |p| > 0 {
      SplitFree(p[1..], sep);
      assert p == [p[0]] + p[1..];
    }
  }

  lemma {:induction false} SplitAfterPiece(p: string, sep: char, t: string)
    requires sep !in p
    ensures Split(p + [sep] + t, sep) == [p] + Split(t, sep)
    decreases |p|
  {
    if |p| == 0 {
      assert p + [sep] + t == [sep] + t;
      assert (p + [sep] + t)[1..] == t;
    } else {
      var s := p + [sep] + t;
      assert s[1..] == p[1..] + [sep] + t;
      SplitAfterPiece(p[1..], sep, t);
      assert s[0] == p[0];
      assert p == [p[0]] + p[1..];
    }
  }

  /** Joining pieces that do not contain the separator and splitting again
      gives the pieces back: the two directions of the round trip. */
  lemma {:induction false} SplitJoin(parts: seq<string>, sep: char)
    requires |parts| >= 1
    requires forall i :: 0 <= i < |parts| ==> sep !in parts[i]
    ensures Split(Join(parts, [sep]), sep) == parts
    decreases |parts|
  {
    if |parts| == 1 {
      SplitFree(parts[0], sep);
    } else {
      SplitJoin(parts[1..], sep);
      SplitAfterPiece(parts[0], sep, Join(parts[1..], [sep]));
      assert parts == [parts[0]] + parts[1..];
    }
  }

  /** The characters that Python's `str.isspace` accepts. */
  predicate IsSpace(c: char) {
    c == ' ' || ('\t' <= c <= '\r') || ('\U{1C}' <= c <= '\U{1F}')
    || c == '\U{85}' || c == '\U{A0}' || c == '\U{1680}'
    || ('\U{2000}' <= c <= '\U{200A}') || c == '\U{2028}' || c == '\U{2029}'
    || c == '\U{202F}' || c == '\U{205F}' || c == '\U{3000}'
  }

  predicate NoSpace(w: string) {
    forall i :: 0 <= i < |w| ==> !IsSpace(w[i])
  }

  /** `s.split()` without a separator: the maximal runs of non-space
      characters, in order; no empty words. */
  function Words(s: string): (r: seq<string>)
    ensures |s| > 0 && !IsSpace(s[0]) ==> |r| > 0 && |r[0]| > 0 && r[0][0] == s[0]
    ensures forall i :: 0 <= i < |r| ==> |r[i]| > 0 && NoSpace(r[i])
    decreases |s|
  {
    if |s| == 0 then []
    else
      var rest := Words(s[1..]);
      if IsSpace(s[0]) then rest
      else if |s| > 1 && !IsSpace(s[1]) then [[s[0]] + rest[0]] + rest[1..]
      else [[s[0]]] + rest
  }

  lemma {:induction false} WordsOfWord(w: string, t: string)
    requires |w| > 0 && NoSpace(w)
    requires |t| == 0 || IsSpace(t[0])
    ensures Words(w + t) == [w] + Words(t)
    decreases |w|
  {
    var s := w + t;
    assert s[1..] == w[1..] + t;
    if |w| == 1 {
      assert s[1..] == t;
      assert [s[0]] == w;
      assert |s| > 1 ==> s[1] == t[0];
    } else {
      WordsOfWord(w[1..], t);
      assert s[1] == w[1];
      assert w == [w[0]] + w[1..];
    }
  }

  lemma {:induction false} WordsAfterSpace(t: string)
    ensures Words(" " + t) == Words(t)
  {
    assert (" " + t)[1..] == t;
  }

  lemma {:induction false} JoinCons(ws: seq<string>, sep: string)
    requires |ws| > 1
    ensures Join(ws, sep) == ws[0] + (sep + Join(ws[1..], sep))
  {
  }

  /** A list of flag names written out with single spaces splits back into
      the same list (the `flag_meanings` attribute is such a text). */
  lemma {:induction false} WordsJoin(ws: seq<string>)
    requires forall i :: 0 <= i < |ws| ==> |ws[i]| > 0 && NoSpace(ws[i])
    ensures Words(Join(ws, " ")) == ws
    decreases |ws|
  {
    if |ws| == 1 {
      WordsOfWord(ws[0], "");
      assert ws[0] + "" == ws[0];
    } else if |ws| > 1 {
      var t := Join(ws[1..], " ");
      WordsJoin(ws[1..]);
      WordsAfterSpace(t);
      WordsOfWord(ws[0], " " + t);
      JoinCons(ws, " ");
      assert ws == [ws[0]] + ws[1..];
    }
  }

  /** `min(a, b)` on naturals. */
  function Min(a: nat, b: nat): nat {
    if a <= b then a else b
  }
}
