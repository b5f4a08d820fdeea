/** Sentinel-3 scene discovery: which folders of a download directory are
    scenes, what their names say (satellite, start date, relative orbit), and
    how they are grouped into passages, one per date, satellite and orbit.
    The directory listing is an input and `os.path.exists` is the set of
    folders that exist. */
module FileSearcher {
  import opened Common

  /** The product files read from every scene folder. */
  const OLCI_FILES: seq<string> := ["chl_nn.nc", "geo_coordinates.nc", "tie_geometries.nc", "wqsf.nc"]

  /** `os.path.join(a, b)` with '/' as the separator: an absolute `b` wins,
      and no second separator is added after one that is already there. */
  function PathJoin(a: string, b: string): string {
    if |b| > 0 && b[0] == '/' then b
    else if |a| == 0 || a[|a| - 1] == '/' then a + b
    else a + "/" + b
  }

  /** The folder a path names, written with its trailing separator. */
  function AsFolder(a: string): (r: string)
    ensures r == [] || r[|r| - 1] == '/'
  {
    if |a| == 0 || a[|a| - 1] == '/' then a else a + "/"
  }

  /** The folder part of a path: everything up to and including its last '/'. */
  function Folder(p: string): (r: string)
    ensures |r| <= |p| && r == p[..|r|]
    ensures r == [] || r[|r| - 1] == '/'
    decreases |p|
  {
    if |p| == 0 then ""
    else if p[|p| - 1] == '/' then p
    else Folder(p[..|p| - 1])
  }

  /** The name part of a path: everything after its last '/'. */
  function BaseName(p: string): string {
    p[|Folder(p)|..]
  }

  lemma {:induction false} FolderOfName(a: string, name: string)
    requires a == [] || a[|a| - 1] == '/'
    requires '/' !in name
    ensures Folder(a + name) == a
    decreases |name|
  {
    if |name| == 0 {
      assert a + name == a;
    } else {
      var p := a + name;
      assert p[|p| - 1] == name[|name| - 1];
      assert p[..|p| - 1] == a + name[..|name| - 1];
      FolderOfName(a, name[..|name| - 1]);
    }
  }

  /** Joining a folder and a plain file name gives a path whose folder part
      is that folder and whose name part is that name. */
  lemma {:induction false} PathJoinParts(a: string, name: string)
    requires '/' !in name
    ensures Folder(PathJoin(a, name)) == AsFolder(a)
    ensures BaseName(PathJoin(a, name)) == name
  {
    if |name| > 0 {
      assert name[0] in name;
    }
    assert PathJoin(a, name) == AsFolder(a) + name;
    FolderOfName(AsFolder(a), name);
  }

  /** The four product paths of scene folder `directory` under `base`. */
  function GetFileList(base: string, directory: string, existing: set<string>): (r: seq<string>)
    ensures |r| == |OLCI_FILES| == 4
  {
    var nested := PathJoin(PathJoin(base, directory), directory);
    var folder := if nested in existing then nested else PathJoin(base, directory);
    seq(|OLCI_FILES|, i requires 0 <= i < |OLCI_FILES| => PathJoin(folder, OLCI_FILES[i]))
  }

  /** The file list holds one path per OLCI_FILES entry, in that order, all
      in the nested `base/directory/directory` folder when that exists and
      otherwise all in `base/directory`. */
  lemma {:induction false} GetFileListLayout(base: string, directory: string, existing: set<string>)
    ensures forall i :: 0 <= i < 4 ==> BaseName(GetFileList(base, directory, existing)[i]) == OLCI_FILES[i]
    ensures PathJoin(PathJoin(base, directory), directory) in existing ==>
      forall i :: 0 <= i < 4 ==>
        Folder(GetFileList(base, directory, existing)[i]) == AsFolder(PathJoin(PathJoin(base, directory), directory))
    ensures PathJoin(PathJoin(base, directory), directory) !in existing ==>
      forall i :: 0 <= i < 4 ==>
        Folder(GetFileList(base, directory, existing)[i]) == AsFolder(PathJoin(base, directory))
  {
    var nested := PathJoin(PathJoin(base, directory), directory);
    var folder := if nested in existing then nested else PathJoin(base, directory);
    var r := GetFileList(base, directory, existing);
    assert forall i :: 0 <= i < |OLCI_FILES| ==> '/' !in OLCI_FILES[i];
    forall i | 0 <= i < 4
      ensures BaseName(r[i]) == OLCI_FILES[i] && Folder(r[i]) == AsFolder(folder)
    {
      PathJoinParts(folder, OLCI_FILES[i]);
    }
  }

  /** The listing entries that are scene folders (names ending in ".SEN3"),
      in listing order. */
  function Sen3Dirs(listing: seq<string>): (r: seq<string>)
    ensures forall i :: 0 <= i < |r| ==> EndsWith(r[i], ".SEN3")
    decreases |listing|
  {
    if |listing| == 0 then []
    else
      var last := listing[|listing| - 1];
      Sen3Dirs(listing[..|listing| - 1]) + (if EndsWith(last, ".SEN3") then [last] else [])
  }

  /** A scene folder is kept as often as it is listed; anything else is dropped. */
  lemma {:induction false} Sen3DirsCounts(listing: seq<string>, x: string)
    ensures multiset(Sen3Dirs(listing))[x] == if EndsWith(x, ".SEN3") then multiset(listing)[x] else 0
    decreases |listing|
  {
    if |listing| > 0 {
      var init, last := listing[..|listing| - 1], listing[|listing| - 1];
      assert listing == init + [last];
      Sen3DirsCounts(init, x);
    }
  }

  /** Filtering a listing in two parts filters each part in place: the scene
      folders keep their listing order. */
  lemma {:induction false} Sen3DirsAppend(a: seq<string>, b: seq<string>)
    ensures Sen3Dirs(a + b) == Sen3Dirs(a) + Sen3Dirs(b)
    decreases |b|
  {
    if |b| == 0 {
      assert a + b == a;
    } else {
      var b', last := b[..|b| - 1], b[|b| - 1];
      var tail := if EndsWith(last, ".SEN3") then [last] else [];
      assert (a + b)[..|a + b| - 1] == a + b';
      assert (a + b)[|a + b| - 1] == last;
      assert Sen3Dirs(a + b) == Sen3Dirs(a + b') + tail;
      assert Sen3Dirs(b) == Sen3Dirs(b') + tail;
      Sen3DirsAppend(a, b');
      assert Sen3Dirs(a) + Sen3Dirs(b') + tail == Sen3Dirs(a) + (Sen3Dirs(b') + tail);
    }
  }

  /** What a scene name says: field 0 of its '_'-split is the satellite,
      field 7 up to the 'T' is the start date, field 12 the relative orbit. */
  datatype NameFields = NameFields(satellite: string, startDate: string, orbit: string)

  /** Reads a scene name; a name with fewer than 13 fields raises IndexError. */
  function ParseName(d: string): (r: Result<NameFields>)
    ensures r.Err? <==> |Split(d, '_')| < 13
    ensures r.Err? ==> r.error == IndexError
    ensures r.Ok? ==> '_' !in r.value.satellite && '_' !in r.value.orbit
    ensures r.Ok? ==> '_' !in r.value.startDate && 'T' !in r.value.startDate
  {
    var fields := Split(d, '_');
    if |fields| < 13 then Err(IndexError)
    else
      assert '_' !in fields[7];
      assert forall c :: c in UpTo(fields[7], 'T') ==> c in fields[7] by {
        JoinSplit(fields[7], 'T');
        var pieces := Split(fields[7], 'T');
        if |pieces| > 1 {
          assert fields[7] == pieces[0] + ['T'] + Join(pieces[1..], ['T']);
        }
      }
      Ok(NameFields(fields[0], UpTo(fields[7], 'T'), fields[12]))
  }

  /** A name written by the product naming convention (at least 13 fields
      joined by '_', none containing '_') reads back as its fields 0, 7 and 12. */
  lemma {:induction false} ParseConventionName(fields: seq<string>)
    requires |fields| >= 13
    requires forall i :: 0 <= i < |fields| ==> '_' !in fields[i]
    ensures ParseName(Join(fields, "_")) == Ok(NameFields(fields[0], UpTo(fields[7], 'T'), fields[12]))
  {
    SplitJoin(fields, '_');
  }

  /** The passage key of a satellite and an orbit. */
  function Combo(sat: string, orb: string): string {
    sat + "_" + orb
  }

  lemma {:induction false} FirstUnderscore(a: string, s: string)
    requires '_' !in a
    ensures UpTo(a + s, '_') == if |s| > 0 && s[0] == '_' then a else a + UpTo(s, '_')
    decreases |a|
  {
    if |a| == 0 {
      assert a + s == s;
      if |s| > 0 && s[0] == '_' {
        assert Split(s, '_')[0] == "";
      }
    } else {
      assert (a + s)[1..] == a[1..] + s;
      FirstUnderscore(a[1..], s);
      assert a[0] != '_';
      assert a == [a[0]] + a[1..];
    }
  }

  /** A satellite name has no '_', so a passage key determines its
      satellite and its orbit. */
  lemma {:induction false} ComboInjective(s1: string, o1: string, s2: string, o2: string)
    requires '_' !in s1 && '_' !in s2
    ensures Combo(s1, o1) == Combo(s2, o2) <==> s1 == s2 && o1 == o2
  {
    if Combo(s1, o1) == Combo(s2, o2) {
      assert Combo(s1, o1) == s1 + ("_" + o1);
      assert Combo(s2, o2) == s2 + ("_" + o2);
      FirstUnderscore(s1, "_" + o1);
      FirstUnderscore(s2, "_" + o2);
      assert s1 == s2;
      assert o1 == Combo(s1, o1)[|s1| + 1..];
      assert o2 == Combo(s2, o2)[|s2| + 1..];
    }
  }

  /** The position of the first occurrence of `x` in `s`. */
  function FirstIndex(s: seq<string>, x: string): (k: nat)
    requires x in s
    ensures k < |s| && s[k] == x && x !in s[..k]
    decreases |s|
  {
    var init := s[..|s| - 1];
    if x in init then
      var k := FirstIndex(init, x);
      assert s[..k] == init[..k];
      k
    else
      assert s[..|s| - 1] == init;
      |s| - 1
  }

  /** `series.unique()`: the distinct values in order of first appearance. */
  function Unique(s: seq<string>): (r: seq<string>)
    ensures forall x :: x in r <==> x in s
    ensures forall i, j :: 0 <= i < j < |r| ==> r[i] != r[j]
    decreases |s|
  {
    if |s| == 0 then []
    else
      var u := Unique(s[..|s| - 1]);
      var last := s[|s| - 1];
      assert s == s[..|s| - 1] + [last];
      if last in u then u else u + [last]
  }

  /** The distinct values come in the order of their first appearance. */
  lemma {:induction false} UniqueOrder(s: seq<string>)
    ensures forall i, j :: 0 <= i < j < |Unique(s)| ==>
      FirstIndex(s, Unique(s)[i]) < FirstIndex(s, Unique(s)[j])
    decreases |s|
  {
    if |s| > 0 {
      var init := s[..|s| - 1];
      UniqueOrder(init);
      var u := Unique(init);
      var last := s[|s| - 1];
      forall x | x in init
        ensures FirstIndex(s, x) == FirstIndex(init, x)
      {
        var k := FirstIndex(init, x);
        assert s[..k] == init[..k];
        assert s[k] == x;
        assert FirstIndex(s, x) <= k by {
          FirstIndexLeast(s, x, k);
        }
        FirstIndexLeast(init, x, FirstIndex(s, x));
      }
      if last !in u {
        assert last !in init;
        assert FirstIndex(s, last) == |s| - 1;
      }
    }
  }

  /** No occurrence comes before the first one. */
  lemma FirstIndexLeast(s: seq<string>, x: string, k: nat)
    requires k < |s| && s[k] == x
    ensures FirstIndex(s, x) <= k
  {
  }

  /** The table of scenes (`self.df`): one row per scene folder with the
      fields read from its name. */
  datatype Frame = Frame(directories: seq<string>, satellite: seq<string>, orbit: seq<string>, startTs: seq<string>)
  {
    /** Every column has one entry per scene folder, and the satellite
        fields, read from a '_'-split, contain no '_'. */
    predicate Valid() {
      && |satellite| == |directories|
      && |orbit| == |directories|
      && |startTs| == |directories|
      && forall i :: 0 <= i < |satellite| ==> '_' !in satellite[i]
    }

    function Rows(): nat {
      |directories|
    }

    function ComboAt(i: nat): string
      requires Valid() && i < Rows()
    {
      Combo(satellite[i], orbit[i])
    }

    /** The distinct start dates. */
    function Dates(): set<string>
      requires Valid()
    {
      set i | 0 <= i < Rows() :: startTs[i]
    }

    /** The passage keys of rows [0, k) that started on `date`. */
    function CombosOn(date: string, k: nat): set<string>
      requires Valid() && k <= Rows()
    {
      set i | 0 <= i < k && startTs[i] == date :: ComboAt(i)
    }

    /** The files of rows [0, k) in passage (`date`, `combo`), in row order. */
    function GroupFiles(base: string, existing: set<string>, date: string, combo: string, k: nat): seq<string>
      requires Valid() && k <= Rows()
    {
      if k == 0 then []
      else
        GroupFiles(base, existing, date, combo, k - 1)
        + (if startTs[k - 1] == date && ComboAt(k - 1) == combo
           then GetFileList(base, directories[k - 1], existing) else [])
    }

    /** The passages of one date: each passage key of the date with its files. */
    function DayTable(base: string, existing: set<string>, date: string, combos: set<string>): map<string, seq<string>>
      requires Valid()
    {
      map c | c in combos :: GroupFiles(base, existing, date, c, Rows())
    }

    /** The passages of the listed dates. */
    function TableFor(base: string, existing: set<string>, dates: set<string>): map<string, map<string, seq<string>>>
      requires Valid()
    {
      map d | d in dates :: DayTable(base, existing, d, CombosOn(d, Rows()))
    }

    /** The passage table: start date -> "<satellite>_<orbit>" -> the files
        of every scene of that date, satellite and orbit, in row order. */
    function PassageTable(base: string, existing: set<string>): map<string, map<string, seq<string>>>
      requires Valid()
    {
      TableFor(base, existing, Dates())
    }

    /** The passage key of every row [0, k), in row order. */
    function RowKeys(k: nat): (r: seq<(string, string)>)
      requires Valid() && k <= Rows()
      ensures |r| == k
    {
      if k == 0 then [] else RowKeys(k - 1) + [(startTs[k - 1], ComboAt(k - 1))]
    }

    /** The files of rows [0, k) that match a date, a satellite and an orbit,
        as `boolean_select` picks them. */
    function SelectFiles(base: string, existing: set<string>, date: string, sat: string, orb: string, k: nat): seq<string>
      requires Valid() && k <= Rows()
    {
      if k == 0 then []
      else
        SelectFiles(base, existing, date, sat, orb, k - 1)
        + (if startTs[k - 1] == date && orbit[k - 1] == orb && satellite[k - 1] == sat
           then GetFileList(base, directories[k - 1], existing) else [])
    }

    /** The number of rows [0, k) in passage (`date`, `combo`). */
    function Occurrences(date: string, combo: string, k: nat): nat
      requires Valid() && k <= Rows()
    {
      if k == 0 then 0
      else Occurrences(date, combo, k - 1) + (if startTs[k - 1] == date && ComboAt(k - 1) == combo then 1 else 0)
    }

    /** Whether some row [0, k) matches a date, a satellite and an orbit. */
    predicate AnySelected(date: string, sat: string, orb: string, k: nat)
      requires Valid() && k <= Rows()
    {
      exists i :: 0 <= i < k && startTs[i] == date && orbit[i] == orb && satellite[i] == sat
    }
  }

  lemma {:induction false} NoneSelected(f: Frame, base: string, existing: set<string>, date: string, sat: string, orb: string, k: nat)
    requires f.Valid() && k <= f.Rows() && !f.AnySelected(date, sat, orb, k)
    ensures f.SelectFiles(base, existing, date, sat, orb, k) == []
  {
    if k > 0 {
      assert !f.AnySelected(date, sat, orb, k - 1);
      NoneSelected(f, base, existing, date, sat, orb, k - 1);
    }
  }

  /** `passages[date].setdefault(combo, []).extend(files)` on one date's passages. */
  function Extend(inner: map<string, seq<string>>, combo: string, files: seq<string>): map<string, seq<string>> {
    inner[combo := (if combo in inner then inner[combo] else []) + files]
  }

  lemma {:induction false} ExtendTwice(inner: map<string, seq<string>>, combo: string, a: seq<string>, b: seq<string>)
    ensures Extend(Extend(inner, combo, a), combo, b) == Extend(inner, combo, a + b)
  {
    var p := if combo in inner then inner[combo] else [];
    assert p + a + b == p + (a + b);
  }

  /** One date's passages after AppendPassage has looked at rows [0, k):
      `inner` extended with the files of the matching rows, if any. */
  function Appended(f: Frame, base: string, existing: set<string>, inner: map<string, seq<string>>,
                    date: string, combo: string, sat: string, orb: string, k: nat): map<string, seq<string>>
    requires f.Valid() && k <= f.Rows()
  {
    if f.AnySelected(date, sat, orb, k)
    then Extend(inner, combo, f.SelectFiles(base, existing, date, sat, orb, k))
    else inner
  }

  lemma {:induction false} AppendStep(f: Frame, base: string, existing: set<string>, inner: map<string, seq<string>>,
                   date: string, combo: string, sat: string, orb: string, i: nat)
    requires f.Valid() && i < f.Rows()
    ensures Appended(f, base, existing, inner, date, combo, sat, orb, i + 1) ==
      if f.startTs[i] == date && f.orbit[i] == orb && f.satellite[i] == sat
      then Extend(Appended(f, base, existing, inner, date, combo, sat, orb, i), combo,
                  GetFileList(base, f.directories[i], existing))
      else Appended(f, base, existing, inner, date, combo, sat, orb, i)
  {
    var sel := f.SelectFiles(base, existing, date, sat, orb, i);
    if f.startTs[i] == date && f.orbit[i] == orb && f.satellite[i] == sat {
      var fileList := GetFileList(base, f.directories[i], existing);
      assert f.SelectFiles(base, existing, date, sat, orb, i + 1) == sel + fileList;
      assert f.AnySelected(date, sat, orb, i + 1);
      if f.AnySelected(date, sat, orb, i) {
        ExtendTwice(inner, combo, sel, fileList);
      } else {
        NoneSelected(f, base, existing, date, sat, orb, i);
        assert sel + fileList == fileList;
      }
    } else {
      assert f.AnySelected(date, sat, orb, i + 1) == f.AnySelected(date, sat, orb, i);
      assert f.SelectFiles(base, existing, date, sat, orb, i + 1) == sel;
    }
  }

  /** The passages while SetDailyPassages works on `date`: the finished
      dates, plus the date's table once it has a passage. */
  function DayEntered(f: Frame, base: string, existing: set<string>, done: map<string, map<string, seq<string>>>,
                      date: string, combos: set<string>): map<string, map<string, seq<string>>>
    requires f.Valid()
  {
    if combos == {} then done else done[date := f.DayTable(base, existing, date, combos)]
  }

  /** The passages of a date being entered are its table so far. */
  lemma {:induction false} DayEnteredAt(f: Frame, base: string, existing: set<string>, done: map<string, map<string, seq<string>>>,
                                        date: string, combos: set<string>)
    requires f.Valid() && date !in done
    ensures var before := DayEntered(f, base, existing, done, date, combos);
      (if date in before then before[date] else map[]) == f.DayTable(base, existing, date, combos)
  {
    if combos == {} {
      assert f.DayTable(base, existing, date, combos) == map[];
    }
  }

  /** Appending the scenes of row i's satellite and orbit to a table that
      lacks row i's passage key adds that passage with its files. */
  lemma {:induction false} AppendedNew(f: Frame, base: string, existing: set<string>, inner: map<string, seq<string>>,
                                       date: string, i: nat)
    requires f.Valid() && i < f.Rows() && f.startTs[i] == date && f.ComboAt(i) !in inner
    ensures Appended(f, base, existing, inner, date, f.ComboAt(i), f.satellite[i], f.orbit[i], f.Rows())
      == inner[f.ComboAt(i) := f.GroupFiles(base, existing, date, f.ComboAt(i), f.Rows())]
  {
    var sel := f.SelectFiles(base, existing, date, f.satellite[i], f.orbit[i], f.Rows());
    assert f.AnySelected(date, f.satellite[i], f.orbit[i], f.Rows());
    SelectIsGroup(f, base, existing, date, f.satellite[i], f.orbit[i], f.Rows());
    assert [] + sel == sel;
  }

  /** Adding a new passage key of a date to the date's table: its files are
      those of the scenes with that satellite and orbit. */
  lemma {:induction false} DayStep(f: Frame, base: string, existing: set<string>, done: map<string, map<string, seq<string>>>,
                date: string, combos: set<string>, i: nat)
    requires f.Valid() && i < f.Rows() && f.startTs[i] == date && f.ComboAt(i) !in combos
    requires date !in done
    ensures
      var before := DayEntered(f, base, existing, done, date, combos);
      before[date := Appended(f, base, existing, if date in before then before[date] else map[],
                              date, f.ComboAt(i), f.satellite[i], f.orbit[i], f.Rows())]
      == DayEntered(f, base, existing, done, date, combos + {f.ComboAt(i)})
  {
    var inner := f.DayTable(base, existing, date, combos);
    DayEnteredAt(f, base, existing, done, date, combos);
    AppendedNew(f, base, existing, inner, date, i);
    DayTableAdd(f, base, existing, date, combos, f.ComboAt(i));
  }

  /** Once every row has been looked at, the date has its full table. */
  lemma {:induction false} DayDone(f: Frame, base: string, existing: set<string>, dates: set<string>, date: string)
    requires f.Valid() && date in f.startTs && date !in dates
    ensures DayEntered(f, base, existing, f.TableFor(base, existing, dates), date, f.CombosOn(date, f.Rows()))
            == f.TableFor(base, existing, dates + {date})
  {
    var w :| 0 <= w < f.Rows() && f.startTs[w] == date;
    assert f.ComboAt(w) in f.CombosOn(date, f.Rows());
    TableForAdd(f, base, existing, dates, date);
  }

  lemma {:induction false} CombosOnStep(f: Frame, date: string, i: nat)
    requires f.Valid() && i < f.Rows()
    ensures f.CombosOn(date, i + 1) ==
      if f.startTs[i] == date then f.CombosOn(date, i) + {f.ComboAt(i)} else f.CombosOn(date, i)
  {
  }

  lemma {:induction false} DayTableAdd(f: Frame, base: string, existing: set<string>, date: string, combos: set<string>, c: string)
    requires f.Valid()
    ensures f.DayTable(base, existing, date, combos)[c := f.GroupFiles(base, existing, date, c, f.Rows())]
            == f.DayTable(base, existing, date, combos + {c})
  {
  }

  lemma {:induction false} TableForAdd(f: Frame, base: string, existing: set<string>, dates: set<string>, d: string)
    requires f.Valid()
    ensures f.TableFor(base, existing, dates)[d := f.DayTable(base, existing, d, f.CombosOn(d, f.Rows()))]
            == f.TableFor(base, existing, dates + {d})
  {
  }

  lemma {:induction false} RowKeysAt(f: Frame, k: nat, i: nat)
    requires f.Valid() && i < k <= f.Rows()
    ensures f.RowKeys(k)[i] == (f.startTs[i], f.ComboAt(i))
  {
    if i < k - 1 {
      RowKeysAt(f, k - 1, i);
    }
  }

  lemma {:induction false} MultisetAppend<T>(s: seq<T>, x: T, y: T)
    ensures multiset(s + [x])[y] == multiset(s)[y] + (if x == y then 1 else 0)
  {
  }

  lemma {:induction false} GroupFilesStep(f: Frame, base: string, existing: set<string>, date: string, combo: string, i: nat)
    requires f.Valid() && i < f.Rows()
    ensures |f.GroupFiles(base, existing, date, combo, i + 1)| ==
      |f.GroupFiles(base, existing, date, combo, i)| + (if f.startTs[i] == date && f.ComboAt(i) == combo then 4 else 0)
  {
  }

  lemma {:induction false} RowKeysStep(f: Frame, date: string, combo: string, i: nat)
    requires f.Valid() && i < f.Rows()
    ensures multiset(f.RowKeys(i + 1))[(date, combo)] ==
      multiset(f.RowKeys(i))[(date, combo)] + (if f.startTs[i] == date && f.ComboAt(i) == combo then 1 else 0)
  {
    var key := (f.startTs[i], f.ComboAt(i));
    assert f.RowKeys(i + 1) == f.RowKeys(i) + [key];
    MultisetAppend(f.RowKeys(i), key, (date, combo));
  }

  /** Each passage holds four files per scene of its date, satellite and orbit. */
  lemma {:induction false} GroupFilesCount(f: Frame, base: string, existing: set<string>, date: string, combo: string, k: nat)
    requires f.Valid() && k <= f.Rows()
    ensures |f.GroupFiles(base, existing, date, combo, k)| == 4 * f.Occurrences(date, combo, k)
  {
    if k > 0 {
      GroupFilesCount(f, base, existing, date, combo, k - 1);
      GroupFilesStep(f, base, existing, date, combo, k - 1);
    }
  }

  /** The rows of a passage are counted by the multiplicity of its key. */
  lemma {:induction false} OccurrencesKeys(f: Frame, date: string, combo: string, k: nat)
    requires f.Valid() && k <= f.Rows()
    ensures multiset(f.RowKeys(k))[(date, combo)] == f.Occurrences(date, combo, k)
  {
    if k > 0 {
      OccurrencesKeys(f, date, combo, k - 1);
      RowKeysStep(f, date, combo, k - 1);
    }
  }

  /** Selecting rows by satellite and orbit picks the same rows as selecting
      them by their passage key. */
  lemma {:induction false} SelectIsGroup(f: Frame, base: string, existing: set<string>, date: string, sat: string, orb: string, k: nat)
    requires f.Valid() && k <= f.Rows() && '_' !in sat
    ensures f.SelectFiles(base, existing, date, sat, orb, k) == f.GroupFiles(base, existing, date, Combo(sat, orb), k)
  {
    if k > 0 {
      SelectIsGroup(f, base, existing, date, sat, orb, k - 1);
      var i := k - 1;
      ComboInjective(f.satellite[i], f.orbit[i], sat, orb);
      var files := GetFileList(base, f.directories[i], existing);
      var picked := f.startTs[i] == date && f.orbit[i] == orb && f.satellite[i] == sat;
      assert picked <==> f.startTs[i] == date && f.ComboAt(i) == Combo(sat, orb);
      assert f.SelectFiles(base, existing, date, sat, orb, k)
          == f.SelectFiles(base, existing, date, sat, orb, i) + (if picked then files else []);
      assert f.GroupFiles(base, existing, date, Combo(sat, orb), k)
          == f.GroupFiles(base, existing, date, Combo(sat, orb), i) + (if picked then files else []);
    }
  }

  /** The passages partition the scenes: (date, key) is a passage exactly
      when some scene has that start date and key, and the passage then holds
      four files for each such scene.  The row keys hold one entry per
      scene, so every scene is counted in exactly one passage. */
  lemma {:induction false} PassagePartition(f: Frame, base: string, existing: set<string>)
    requires f.Valid()
    ensures forall d, c :: (d in f.PassageTable(base, existing) && c in f.PassageTable(base, existing)[d])
                           <==> (d, c) in multiset(f.RowKeys(f.Rows()))
    ensures forall d, c :: d in f.PassageTable(base, existing) && c in f.PassageTable(base, existing)[d] ==>
              |f.PassageTable(base, existing)[d][c]| == 4 * multiset(f.RowKeys(f.Rows()))[(d, c)]
    ensures |multiset(f.RowKeys(f.Rows()))| == f.Rows()
  {
    var t := f.PassageTable(base, existing);
    var keys := f.RowKeys(f.Rows());
    forall d, c
      ensures (d in t && c in t[d]) <==> (d, c) in multiset(keys)
    {
      if d in t && c in t[d] {
        var i :| 0 <= i < f.Rows() && f.startTs[i] == d && f.ComboAt(i) == c;
        RowKeysAt(f, f.Rows(), i);
        assert keys[i] == (d, c);
      }
      if (d, c) in multiset(keys) {
        var i :| 0 <= i < |keys| && keys[i] == (d, c);
        RowKeysAt(f, f.Rows(), i);
        assert d in f.Dates();
        assert c in f.CombosOn(d, f.Rows());
      }
    }
    forall d, c | d in t && c in t[d]
      ensures |t[d][c]| == 4 * multiset(keys)[(d, c)]
    {
      GroupFilesCount(f, base, existing, d, c, f.Rows());
      OccurrencesKeys(f, d, c, f.Rows());
    }
  }

  /** The scene finder of one download directory. */
  class Seacher {
    const baseDir: string
    const satpyReader: string
    /** The folders that `os.path.exists` reports. */
    const existing: set<string>
    var df: Frame
    var passages: map<string, map<string, seq<string>>>

    /** The folders of `listing` that are scenes become the rows; the name
        fields are read by SetNameAttributes and the passages built by
        SetDailyPassages (see Open). */
    constructor (baseDir: string, satpyReader: string, listing: seq<string>, existing: set<string>)
      ensures this.baseDir == baseDir && this.satpyReader == satpyReader && this.existing == existing
      ensures df == Frame(Sen3Dirs(listing), [], [], [])
      ensures passages == map[]
    {
      this.baseDir := baseDir;
      this.satpyReader := satpyReader;
      this.existing := existing;
      df := Frame(Sen3Dirs(listing), [], [], []);
      passages := map[];
    }

    /** Reads satellite, start date and orbit from every scene name, in row
        order; the first name with fewer than 13 fields raises IndexError and
        leaves the table as it was. */
    method SetNameAttributes() returns (r: Result<()>)
      modifies this`df
      ensures r.Ok? <==> forall i :: 0 <= i < |old(df.directories)| ==> ParseName(old(df.directories)[i]).Ok?
      ensures r.Err? ==> r.error == IndexError && df == old(df)
      ensures r.Ok? ==> df.directories == old(df.directories) && df.Valid()
      ensures r.Ok? ==> forall i :: 0 <= i < df.Rows() ==>
        ParseName(df.directories[i]) == Ok(NameFields(df.satellite[i], df.startTs[i], df.orbit[i]))
    {
      var startTs: seq<string> := [];
      var satellite: seq<string> := [];
      var orbit: seq<string> := [];
      var n := |df.directories|;
      for i := 0 to n
        invariant |startTs| == |satellite| == |orbit| == i
        invariant forall j :: 0 <= j < i ==>
          ParseName(df.directories[j]) == Ok(NameFields(satellite[j], startTs[j], orbit[j]))
      {
        var fields := Split(df.directories[i], '_');
        if |fields| < 13 {
          return Err(IndexError);
        }
        satellite := satellite + [fields[0]];
        startTs := startTs + [UpTo(fields[7], 'T')];
        orbit := orbit + [fields[12]];
      }
      df := df.(satellite := satellite, orbit := orbit, startTs := startTs);
      r := Ok(());
    }

    /** Adds to passage `combo` of `date` the files of every scene of that
        date, satellite and orbit, in row order; the date gets an entry even
        when no scene matches. */
    method AppendPassage(date: string, combo: string, sat: string, orb: string)
      requires df.Valid()
      modifies this`passages
      ensures passages == old(passages)[date :=
        Appended(df, baseDir, existing, if date in old(passages) then old(passages)[date] else map[],
                 date, combo, sat, orb, df.Rows())]
    {
      var f := df;
      var inner := if date in passages then passages[date] else map[];
      passages := passages[date := inner];
      ghost var before := passages;
      for i := 0 to f.Rows()
        invariant date in passages
        invariant passages == before[date := Appended(f, baseDir, existing, inner, date, combo, sat, orb, i)]
      {
        AppendStep(f, baseDir, existing, inner, date, combo, sat, orb, i);
        AppendRow(date, combo, sat, orb, i);
      }
    }

    /** One row of AppendPassage: a scene of the date, satellite and orbit
        has its files added to passage `combo` of `date`. */
    method AppendRow(date: string, combo: string, sat: string, orb: string, i: nat)
      requires df.Valid() && i < df.Rows() && date in passages
      modifies this`passages
      ensures passages == if df.startTs[i] == date && df.orbit[i] == orb && df.satellite[i] == sat
        then old(passages)[date := Extend(old(passages)[date], combo, GetFileList(baseDir, df.directories[i], existing))]
        else old(passages)
    {
      if df.startTs[i] == date && df.orbit[i] == orb && df.satellite[i] == sat {
        var fileList := GetFileList(baseDir, df.directories[i], existing);
        passages := passages[date := Extend(passages[date], combo, fileList)];
      }
    }

    /** Builds the passage table from an empty one: for each distinct start
        date, in order of first appearance, each new passage key of the
        date's scenes gets the files of its scenes. */
    method SetDailyPassages()
      requires df.Valid() && passages == map[]
      modifies this`passages
      ensures passages == df.PassageTable(baseDir, existing)
    {
      var f := df;
      var dates := Unique(f.startTs);
      for j := 0 to |dates|
        invariant passages == f.TableFor(baseDir, existing, set k | 0 <= k < j :: dates[k])
      {
        var date := dates[j];
        assert date !in passages;
        DailyPassages(date);
        DayDone(f, baseDir, existing, set k | 0 <= k < j :: dates[k], date);
        assert (set k | 0 <= k < j + 1 :: dates[k]) == (set k | 0 <= k < j :: dates[k]) + {date};
      }
      forall x
        ensures x in (set k | 0 <= k < |dates| :: dates[k]) <==> x in f.Dates()
      {
        if x in f.startTs {
          var k :| 0 <= k < |dates| && dates[k] == x;
        }
      }
    }

    /** One date of SetDailyPassages: each passage key of the date's scenes,
        at its first scene, gets the files of all its scenes. */
    method DailyPassages(date: string)
      requires df.Valid() && date !in passages
      modifies this`passages
      ensures passages == DayEntered(df, baseDir, existing, old(passages), date, df.CombosOn(date, df.Rows()))
    {
      var f := df;
      ghost var done := passages;
      var satOrbComplete: set<string> := {};
      for i := 0 to f.Rows()
        invariant satOrbComplete == f.CombosOn(date, i)
        invariant passages == DayEntered(f, baseDir, existing, done, date, satOrbComplete)
      {
        CombosOnStep(f, date, i);
        if f.startTs[i] == date {
          var combo := Combo(f.satellite[i], f.orbit[i]);
          if combo !in satOrbComplete {
            DayStep(f, baseDir, existing, done, date, satOrbComplete, i);
            AppendPassage(date, combo, f.satellite[i], f.orbit[i]);
            satOrbComplete := satOrbComplete + {combo};
          }
        }
      }
    }

    /** `passages[date].get(passage)` under the reader's name; an unknown date
        raises KeyError, an unknown passage of a known date gives None. */
    function GetPassageFiles(date: string, passage: string): (r: Result<map<string, Option<seq<string>>>>)
      reads this
      requires df.Valid() && passages == df.PassageTable(baseDir, existing)
      ensures r.Err? <==> date !in df.startTs
      ensures r.Err? ==> r.error == KeyError
      ensures r.Ok? ==> r.value.Keys == {satpyReader}
      ensures r.Ok? ==> (r.value[satpyReader].Some? <==>
        exists i :: 0 <= i < df.Rows() && df.startTs[i] == date && df.ComboAt(i) == passage)
      ensures r.Ok? && r.value[satpyReader].Some? ==>
        r.value[satpyReader].value == df.GroupFiles(baseDir, existing, date, passage, df.Rows())
    {
      if date !in passages then Err(KeyError)
      else
        var day := passages[date];
        Ok(map[satpyReader := if passage in day then Some(day[passage]) else None])
    }
  }

  /** `Seacher(base_dir, satpy_reader)`: reads the scene folders of `listing`
      and groups them into passages; a scene name with fewer than 13 fields
      makes the construction raise IndexError. */
  method Open(baseDir: string, satpyReader: string, listing: seq<string>, existing: set<string>)
    returns (r: Result<Seacher>)
    ensures r.Err? <==> exists d :: d in Sen3Dirs(listing) && ParseName(d).Err?
    ensures r.Err? ==> r.error == IndexError
    ensures r.Ok? ==> fresh(r.value) && r.value.df.Valid() && r.value.df.directories == Sen3Dirs(listing)
    ensures r.Ok? ==>
              && r.value.baseDir == baseDir && r.value.satpyReader == satpyReader
              && r.value.existing == existing
    ensures r.Ok? ==> forall i :: 0 <= i < r.value.df.Rows() ==>
      ParseName(r.value.df.directories[i]) ==
        Ok(NameFields(r.value.df.satellite[i], r.value.df.startTs[i], r.value.df.orbit[i]))
    ensures r.Ok? ==> r.value.passages == r.value.df.PassageTable(baseDir, existing)
  {
    var s := new Seacher(baseDir, satpyReader, listing, existing);
    var named := s.SetNameAttributes();
    if named.Err? {
      return Err(named.error);
    }
    s.passages := map[];
    s.SetDailyPassages();
    r := Ok(s);
  }
}
