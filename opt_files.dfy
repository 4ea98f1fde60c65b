/**
 * Operation files of src/core.rs: the name `opt-<id>.py` an operation is
 * stored under, how `get_ids` recognises and parses such names, and the
 * sorted id list it returns.
 */
module OptFiles {
  import opened Wrappers

  // ---------------------------------------------------------------------------
  // Decimal digits
  // ---------------------------------------------------------------------------

  predicate IsDigit(c: char) {
    '0' <= c <= '9'
  }

  predicate AllDigits(s: string) {
    forall k :: 0 <= k < |s| ==> IsDigit(s[k])
  }

  function DigitChar(d: nat): (c: char)
    requires d < 10
    ensures IsDigit(c)
  {
    ('0' as int + d) as char
  }

  function DigitValue(c: char): (d: nat)
    requires IsDigit(c)
    ensures d < 10
  {
    c as int - '0' as int
  }

  /** How `format!("{}", id)` writes an id: decimal digits, no sign, no leading zero. */
  function Decimal(n: nat): (s: string)
    ensures s != [] && AllDigits(s)
    ensures s[0] == '0' ==> s == "0"
    decreases n
  {
    if n < 10 then [DigitChar(n)] else Decimal(n / 10) + [DigitChar(n % 10)]
  }

  /** The number a string of decimal digits denotes. */
  function DigitsValue(s: string): nat
    requires AllDigits(s)
    decreases |s|
  {
    if s == [] then 0 else DigitsValue(s[..|s| - 1]) * 10 + DigitValue(s[|s| - 1])
  }

  lemma {:induction false} DecimalValue(n: nat)
    ensures DigitsValue(Decimal(n)) == n
    decreases n
  {
    if n >= 10 {
      DecimalValue(n / 10);
      var s := Decimal(n);
      assert s[..|s| - 1] == Decimal(n / 10);
    }
  }

  /** Leading zeros do not change the value of a digit string. */
  lemma {:induction false} LeadingZeroValue(s: string)
    requires AllDigits(s)
    ensures AllDigits("0" + s) && DigitsValue("0" + s) == DigitsValue(s)
    decreases |s|
  {
    if s != [] {
      LeadingZeroValue(s[..|s| - 1]);
      assert ("0" + s)[..|"0" + s| - 1] == "0" + s[..|s| - 1];
    }
  }

  /**
   * Rust's `str::parse::<u32>`: an optional `+`, then one or more decimal
   * digits; anything else (an empty string, a lone sign, a `-`, any other
   * character) is a parse error. The 32-bit range is not modelled.
   */
  function ParseId(s: string): Option<nat> {
    var digits := if |s| > 0 && s[0] == '+' then s[1..] else s;
    if digits != [] && AllDigits(digits) then Some(DigitsValue(digits)) else None
  }

  /** A rendered id parses back to itself. */
  lemma ParseDecimal(n: nat)
    ensures ParseId(Decimal(n)) == Some(n)
  {
    DecimalValue(n);
  }

  /** The parser also accepts a `+` sign and leading zeros, so several spellings denote one id. */
  lemma ParseAcceptsSignAndZeros(n: nat)
    ensures ParseId("+" + Decimal(n)) == Some(n)
    ensures ParseId("0" + Decimal(n)) == Some(n)
  {
    DecimalValue(n);
    assert ("+" + Decimal(n))[1..] == Decimal(n);
    LeadingZeroValue(Decimal(n));
  }

  /** Strings that are not a sign followed by digits are rejected. */
  lemma ParseRejects()
    ensures ParseId("") == None && ParseId("+") == None && ParseId("-1") == None && ParseId("1a") == None
  {
    assert !IsDigit("-1"[0]);
    assert !IsDigit("1a"[1]);
  }

  // ---------------------------------------------------------------------------
  // File names
  // ---------------------------------------------------------------------------

  const Prefix: string := "opt-"
  const Suffix: string := ".py"

  /** `format!("{}/opt-{}.py", dir, id)`, without the directory. */
  function FileName(id: nat): string {
    Prefix + Decimal(id) + Suffix
  }

  /** The test of `get_ids`: `starts_with("opt-") && ends_with(".py")`. */
  predicate IsOptName(name: string) {
    && |Prefix| <= |name| && name[..|Prefix|] == Prefix
    && |Suffix| <= |name| && name[|name| - |Suffix|..] == Suffix
  }

  /** The prefix and the suffix cannot overlap, so a recognised name is at least seven characters long. */
  lemma OptNameLength(name: string)
    requires IsOptName(name)
    ensures |name| >= |Prefix| + |Suffix|
  {
    assert name[..4][3] == '-';
  }

  /** The text between prefix and suffix: `file_name[4..file_name.len() - 3]`. */
  function Middle(name: string): (m: string)
    requires IsOptName(name)
    ensures |m| == |name| - |Prefix| - |Suffix|
  {
    OptNameLength(name);
    name[|Prefix|..|name| - |Suffix|]
  }

  /** The name written for id `i` is recognised and parses back to `i`. */
  lemma FileNameParses(id: nat)
    ensures IsOptName(FileName(id))
    ensures Middle(FileName(id)) == Decimal(id)
    ensures ParseId(Middle(FileName(id))) == Some(id)
  {
    var name := FileName(id);
    assert name[..|Prefix|] == Prefix;
    assert name[|name| - |Suffix|..] == Suffix;
    assert name[|Prefix|..|name| - |Suffix|] == Decimal(id);
    ParseDecimal(id);
  }

  /** Distinct ids are stored under distinct names. */
  lemma FileNameInjective(i: nat, j: nat)
    ensures FileName(i) == FileName(j) <==> i == j
  {
    FileNameParses(i);
    FileNameParses(j);
  }

  /** `get_ids` panics on a recognised name whose middle does not parse; every recognised name must parse. */
  predicate Scannable(names: set<string>) {
    forall name | name in names && IsOptName(name) :: ParseId(Middle(name)).Some?
  }

  /** The names in `names` that `get_ids` turns into `id`. */
  ghost function NamesFor(names: set<string>, id: nat): set<string> {
    set name | name in names && IsOptName(name) && ParseId(Middle(name)) == Some(id)
  }

  // ---------------------------------------------------------------------------
  // Sorting (`sort_unstable`)
  // ---------------------------------------------------------------------------

  predicate Sorted(s: seq<nat>) {
    forall i, j :: 0 <= i < j < |s| ==> s[i] <= s[j]
  }

  predicate StrictlySorted(s: seq<nat>) {
    forall i, j :: 0 <= i < j < |s| ==> s[i] < s[j]
  }

  lemma SortedCons(x: nat, s: seq<nat>)
    requires Sorted(s)
    requires s == [] || x <= s[0]
    ensures Sorted([x] + s)
  {
    var r := [x] + s;
    forall i, j | 0 <= i < j < |r| ensures r[i] <= r[j] {
      if i == 0 && j > 1 {
        assert s[0] <= s[j - 1];
      }
    }
  }

  function InsertSorted(x: nat, s: seq<nat>): (r: seq<nat>)
    requires Sorted(s)
    ensures Sorted(r)
    ensures multiset(r) == multiset(s) + multiset{x}
    ensures |r| == |s| + 1 && (r[0] == x || (s != [] && r[0] == s[0]))
    decreases |s|
  {
    if s == [] || x <= s[0] then
      SortedCons(x, s);
      [x] + s
    else
      var tail := InsertSorted(x, s[1..]);
      assert s == [s[0]] + s[1..];
      assert s[1..] != [] ==> s[0] <= s[1];
      SortedCons(s[0], tail);
      [s[0]] + tail
  }

  /** `sort_unstable` on a vector of ids: sorted, and the same ids with the same multiplicities. */
  function SortIds(s: seq<nat>): (r: seq<nat>)
    ensures Sorted(r)
    ensures multiset(r) == multiset(s)
    decreases |s|
  {
    if s == [] then []
    else
      assert s == [s[0]] + s[1..];
      InsertSorted(s[0], SortIds(s[1..]))
  }

  // ---------------------------------------------------------------------------
  // The directory scan
  // ---------------------------------------------------------------------------

  /**
   * `get_ids`' loop over the directory entries, in whatever order the
   * directory yields them: every recognised name contributes its parsed id,
   * and the ids are then sorted. Each id appears once for every name that
   * parses to it.
   */
  method ScanIds(names: set<string>) returns (ids: seq<nat>)
    requires Scannable(names)
    ensures Sorted(ids)
    ensures forall id :: multiset(ids)[id] == |NamesFor(names, id)|
  {
    var pushed: seq<nat> := [];
    var rest := names;
    while rest != {}
      invariant rest <= names
      invariant forall id :: multiset(pushed)[id] == |NamesFor(names - rest, id)|
      decreases |rest|
    {
      var name :| name in rest;
      ghost var done := names - rest;
      if IsOptName(name) {
        var id := ParseId(Middle(name)).value;
        pushed := pushed + [id];
      }
      rest := rest - {name};
      assert names - rest == done + {name};
      forall id ensures multiset(pushed)[id] == |NamesFor(names - rest, id)| {
        NamesForAdd(done, name, id);
      }
    }
    assert names - rest == names;
    ids := SortIds(pushed);
  }

  lemma NamesForAdd(done: set<string>, name: string, id: nat)
    requires name !in done
    ensures NamesFor(done + {name}, id)
            == if IsOptName(name) && ParseId(Middle(name)) == Some(id) then NamesFor(done, id) + {name}
               else NamesFor(done, id)
  {
  }

  /** A directory listing: the canonical file of every id in `ids`, beside entries that are not operation files. */
  function DirNames(ids: set<nat>, others: set<string>): set<string> {
    (set id | id in ids :: FileName(id)) + others
  }

  /** In such a listing an id is named by exactly one entry when it is in `ids`, and by none otherwise. */
  lemma DirNamesFor(ids: set<nat>, others: set<string>, id: nat)
    requires forall name | name in others :: !IsOptName(name)
    ensures NamesFor(DirNames(ids, others), id) == if id in ids then {FileName(id)} else {}
  {
    var names := DirNames(ids, others);
    forall name | name in NamesFor(names, id) ensures name == FileName(id) && id in ids {
      var j :| j in ids && name == FileName(j);
      FileNameParses(j);
    }
    if id in ids {
      FileNameParses(id);
      assert FileName(id) in NamesFor(names, id);
    }
  }

  /** Every operation file of such a listing has a parsable id. */
  lemma DirNamesScannable(ids: set<nat>, others: set<string>)
    requires forall name | name in others :: !IsOptName(name)
    ensures Scannable(DirNames(ids, others))
  {
    forall name | name in DirNames(ids, others) && IsOptName(name) ensures ParseId(Middle(name)).Some? {
      var j :| j in ids && name == FileName(j);
      FileNameParses(j);
    }
  }

  /** Scanning such a listing yields its ids in ascending order, each once. */
  lemma ScanOfDirNames(ids: set<nat>, others: set<string>, scanned: seq<nat>)
    requires forall name | name in others :: !IsOptName(name)
    requires Sorted(scanned)
    requires forall id :: multiset(scanned)[id] == |NamesFor(DirNames(ids, others), id)|
    ensures scanned == SortedKeys(ids)
  {
    forall id ensures multiset(scanned)[id] == if id in ids then 1 else 0 {
      DirNamesFor(ids, others, id);
    }
    SortedWithoutRepeats(scanned);
    SortedKeysUnique(scanned, ids);
  }

  // ---------------------------------------------------------------------------
  // The sorted key list of a finite set of ids
  // ---------------------------------------------------------------------------

  ghost function SetMin(s: set<nat>): (m: nat)
    requires s != {}
    ensures m in s && forall y | y in s :: m <= y
    decreases |s|
  {
    var x :| x in s;
    if s == {x} then x
    else
      var m := SetMin(s - {x});
      assert forall y | y in s :: y == x || y in s - {x};
      if x <= m then x else m
  }

  /** The ids of `keys` in ascending order, each once. */
  ghost function SortedKeys(keys: set<nat>): (ids: seq<nat>)
    ensures StrictlySorted(ids)
    ensures forall id :: id in ids <==> id in keys
    ensures |ids| == |keys|
    decreases |keys|
  {
    if keys == {} then []
    else
      var m := SetMin(keys);
      [m] + SortedKeys(keys - {m})
  }

  /** A strictly ascending list holding exactly the ids of `keys` is their sorted key list. */
  lemma {:induction false} SortedKeysUnique(ids: seq<nat>, keys: set<nat>)
    requires StrictlySorted(ids)
    requires forall id :: id in ids <==> id in keys
    ensures ids == SortedKeys(keys)
    decreases |keys|
  {
    if keys == {} {
      NothingListed(ids, keys);
    } else {
      HeadIsMin(ids, keys);
      TailHoldsRest(ids, keys);
      SortedKeysUnique(ids[1..], keys - {ids[0]});
      ListingCons(ids, keys);
    }
  }

  lemma ListingCons(ids: seq<nat>, keys: set<nat>)
    requires keys != {} && ids != []
    requires ids[0] == SetMin(keys) && ids[1..] == SortedKeys(keys - {ids[0]})
    ensures ids == SortedKeys(keys)
  {
    assert ids == [ids[0]] + ids[1..];
  }

  lemma NothingListed(ids: seq<nat>, keys: set<nat>)
    requires forall id :: id in ids <==> id in keys
    ensures keys == {} ==> ids == []
  {
    if ids != [] {
      assert ids[0] in keys;
    }
  }

  lemma HeadIsMin(ids: seq<nat>, keys: set<nat>)
    requires StrictlySorted(ids)
    requires forall id :: id in ids <==> id in keys
    requires keys != {}
    ensures ids != [] && ids[0] == SetMin(keys)
  {
    var m := SetMin(keys);
    assert m in ids;
    var k :| 0 <= k < |ids| && ids[k] == m;
    assert ids[0] in keys;
  }

  lemma TailHoldsRest(ids: seq<nat>, keys: set<nat>)
    requires StrictlySorted(ids)
    requires forall id :: id in ids <==> id in keys
    requires ids != []
    ensures StrictlySorted(ids[1..])
    ensures forall id :: id in ids[1..] <==> id in keys - {ids[0]}
  {
    var tail := ids[1..];
    forall id ensures id in tail <==> id in keys - {ids[0]} {
      if id in tail {
        var k :| 0 <= k < |tail| && tail[k] == id;
        assert ids[k + 1] == id;
      }
      if id in keys - {ids[0]} {
        var k :| 0 <= k < |ids| && ids[k] == id;
        assert tail[k - 1] == id;
      }
    }
  }

  /** A sorted list in which every id occurs at most once is strictly ascending. */
  lemma SortedWithoutRepeats(ids: seq<nat>)
    requires Sorted(ids)
    requires forall id :: multiset(ids)[id] <= 1
    ensures StrictlySorted(ids)
  {
    forall i, j | 0 <= i < j < |ids| ensures ids[i] < ids[j] {
      assert ids == ids[..j] + ids[j..];
      assert ids[i] in multiset(ids[..j]);
      assert multiset(ids)[ids[i]] == multiset(ids[..j])[ids[i]] + multiset(ids[j..])[ids[i]];
      assert ids[j] in multiset(ids[j..]);
    }
  }
}
