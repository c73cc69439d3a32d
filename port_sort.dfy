/**
 * Sorting the port list for the `/api/ports` endpoint: the whitelist of
 * sort fields, the key each field sorts by, and Python's stable
 * `list.sort(key=..., reverse=...)` as an insertion sort.
 */
module PortSort {
  import opened Wrappers
  import opened Text
  import opened SsParser

  // ----- the sort fields -----

  /** The eight field names a caller may sort by. */
  datatype Field = Port | Protocol | Status | LocalAddress | RemoteAddress | Pid | Process | User

  /** The name of a field as it appears in the query and in a record. */
  function FieldName(f: Field): string {
    match f
    case Port => "port"
    case Protocol => "protocol"
    case Status => "status"
    case LocalAddress => "local_address"
    case RemoteAddress => "remote_address"
    case Pid => "pid"
    case Process => "process"
    case User => "user"
  }

  /** Looks a name up in the whitelist; `None` for any other name. */
  function FieldNamed(name: string): (r: Option<Field>)
    ensures r.Some? ==> FieldName(r.value) == name
  {
    if name == "port" then Some(Port)
    else if name == "protocol" then Some(Protocol)
    else if name == "status" then Some(Status)
    else if name == "local_address" then Some(LocalAddress)
    else if name == "remote_address" then Some(RemoteAddress)
    else if name == "pid" then Some(Pid)
    else if name == "process" then Some(Process)
    else if name == "user" then Some(User)
    else None
  }

  /** Every field's own name passes the whitelist and gives back that field. */
  lemma FieldNamedRoundTrip(f: Field)
    ensures FieldNamed(FieldName(f)) == Some(f)
  {
  }

  /** Exactly the eight names are whitelisted. */
  lemma FieldNamedIff(name: string)
    ensures FieldNamed(name).Some? <==> exists f: Field :: FieldName(f) == name
  {
    if exists f: Field :: FieldName(f) == name {
      var f: Field :| FieldName(f) == name;
      FieldNamedRoundTrip(f);
    }
  }

  // ----- sort keys -----

  /** A sort key: the port number, or a field's text. */
  datatype SortKey = Num(n: int) | Str(s: string)

  /** The numeric value of a port: its decimal value when it is all digits, 0 otherwise. */
  function PortNumber(port: string): (n: nat)
    ensures (port == [] || !AllIn(port, Digit)) ==> n == 0
  {
    if port != [] && AllIn(port, Digit) then DecimalValue(port) else 0
  }

  /** The key a record sorts by: a number for the port, the text (or "" for None) otherwise. */
  function SortKeyOf(r: PortRecord, f: Field): (k: SortKey)
    ensures k.Num? <==> f == Port
    ensures k.Num? ==> k.n >= 0 && (k.n > 0 ==> r.port != [] && AllIn(r.port, Digit))
  {
    match f
    case Port => Num(PortNumber(r.port))
    case Protocol => Str(r.protocol)
    case Status => Str(r.status)
    case LocalAddress => Str(r.localAddress)
    case RemoteAddress => Str(r.remoteAddress)
    case Pid => Str(r.pid.GetOr(""))
    case Process => Str(r.process.GetOr(""))
    case User => Str(r.user.GetOr(""))
  }

  /** Key order: numbers by value, text by code points; keys of one field never mix. */
  predicate KeyLe(a: SortKey, b: SortKey) {
    match (a, b)
    case (Num(x), Num(y)) => x <= y
    case (Str(x), Str(y)) => LexLe(x, y)
    case (Num(_), Str(_)) => true
    case (Str(_), Num(_)) => false
  }

  lemma KeyLeTotal(a: SortKey, b: SortKey)
    ensures KeyLe(a, b) || KeyLe(b, a)
  {
    if a.Str? && b.Str? {
      LexLeTotal(a.s, b.s);
    }
  }

  lemma KeyLeTransitive(a: SortKey, b: SortKey, c: SortKey)
    requires KeyLe(a, b) && KeyLe(b, c)
    ensures KeyLe(a, c)
  {
    if a.Str? && b.Str? && c.Str? {
      LexLeTransitive(a.s, b.s, c.s);
    }
  }

  lemma KeyLeAntisymmetric(a: SortKey, b: SortKey)
    requires KeyLe(a, b) && KeyLe(b, a)
    ensures a == b
  {
    if a.Str? && b.Str? {
      LexLeAntisymmetric(a.s, b.s);
    }
  }

  // ----- record order -----

  /**
   * `a` may stay before `b`: its key is not larger (ascending) or not
   * smaller (descending, every comparison reversed).
   */
  predicate Before(a: PortRecord, b: PortRecord, f: Field, desc: bool)
    ensures f == Port ==>
      (Before(a, b, f, desc) <==>
        if desc then PortNumber(b.port) <= PortNumber(a.port) else PortNumber(a.port) <= PortNumber(b.port))
    ensures f != Port ==>
      (Before(a, b, f, desc) <==>
        if desc then LexLe(SortKeyOf(b, f).s, SortKeyOf(a, f).s) else LexLe(SortKeyOf(a, f).s, SortKeyOf(b, f).s))
  {
    if desc then KeyLe(SortKeyOf(b, f), SortKeyOf(a, f)) else KeyLe(SortKeyOf(a, f), SortKeyOf(b, f))
  }

  lemma BeforeTotal(a: PortRecord, b: PortRecord, f: Field, desc: bool)
    ensures Before(a, b, f, desc) || Before(b, a, f, desc)
  {
    KeyLeTotal(SortKeyOf(a, f), SortKeyOf(b, f));
  }

  lemma BeforeTransitive(a: PortRecord, b: PortRecord, c: PortRecord, f: Field, desc: bool)
    requires Before(a, b, f, desc) && Before(b, c, f, desc)
    ensures Before(a, c, f, desc)
  {
    if desc {
      KeyLeTransitive(SortKeyOf(c, f), SortKeyOf(b, f), SortKeyOf(a, f));
    } else {
      KeyLeTransitive(SortKeyOf(a, f), SortKeyOf(b, f), SortKeyOf(c, f));
    }
  }

  /** Two records that may each stay before the other have the same key. */
  lemma BeforeBothWays(a: PortRecord, b: PortRecord, f: Field, desc: bool)
    requires Before(a, b, f, desc) && Before(b, a, f, desc)
    ensures SortKeyOf(a, f) == SortKeyOf(b, f)
  {
    KeyLeAntisymmetric(SortKeyOf(a, f), SortKeyOf(b, f));
  }

  /** Records of equal key may stay in either order. */
  lemma BeforeSameKey(a: PortRecord, b: PortRecord, f: Field, desc: bool)
    requires SortKeyOf(a, f) == SortKeyOf(b, f)
    ensures Before(a, b, f, desc)
  {
    KeyLeTotal(SortKeyOf(a, f), SortKeyOf(a, f));
  }

  /** Every pair of records is in order. */
  predicate Sorted(s: seq<PortRecord>, f: Field, desc: bool) {
    forall i, j :: 0 <= i < j < |s| ==> Before(s[i], s[j], f, desc)
  }

  /** The records of `s` whose key is `k`, in the order of `s`. */
  function KeyFilter(s: seq<PortRecord>, f: Field, k: SortKey): seq<PortRecord> {
    if s == [] then []
    else KeyFilter(s[..|s| - 1], f, k) + KeyPart(s[|s| - 1], f, k)
  }

  /** `[y]` when `y` has key `k`, nothing otherwise. */
  function KeyPart(y: PortRecord, f: Field, k: SortKey): seq<PortRecord> {
    if SortKeyOf(y, f) == k then [y] else []
  }

  lemma KeyFilterSnoc(s: seq<PortRecord>, y: PortRecord, f: Field, k: SortKey)
    ensures KeyFilter(s + [y], f, k) == KeyFilter(s, f, k) + KeyPart(y, f, k)
  {
    assert (s + [y])[..|s|] == s;
  }

  // ----- the stable sort -----

  /**
   * Inserts `x` after the last record that may stay before it, so that `x`
   * follows every record of equal key already there.
   */
  function Insert(s: seq<PortRecord>, x: PortRecord, f: Field, desc: bool): (r: seq<PortRecord>)
    ensures |r| == |s| + 1
    ensures multiset(r) == multiset(s) + multiset{x}
  {
    if s == [] then [x]
    else if Before(s[|s| - 1], x, f, desc) then s + [x]
    else
      var init := s[..|s| - 1];
      assert s == init + [s[|s| - 1]];
      Insert(init, x, f, desc) + [s[|s| - 1]]
  }

  /** Python's stable `list.sort(key, reverse=desc)`, as an insertion sort from the left. */
  function SortBy(s: seq<PortRecord>, f: Field, desc: bool): (r: seq<PortRecord>)
    ensures |r| == |s|
  {
    if s == [] then []
    else Insert(SortBy(s[..|s| - 1], f, desc), s[|s| - 1], f, desc)
  }

  /** Every record of `Insert(s, x)` is `x` or a record of `s`. */
  lemma InsertMember(s: seq<PortRecord>, x: PortRecord, f: Field, desc: bool, i: int)
    requires 0 <= i < |Insert(s, x, f, desc)|
    ensures Insert(s, x, f, desc)[i] == x || Insert(s, x, f, desc)[i] in s
  {
    var r := Insert(s, x, f, desc);
    assert r[i] in multiset(r);
  }

  /** A record that may stay before `x` and after every record of sorted `s` keeps `s + [x]` sorted. */
  lemma AppendSorted(s: seq<PortRecord>, x: PortRecord, f: Field, desc: bool)
    requires Sorted(s, f, desc) && s != [] && Before(s[|s| - 1], x, f, desc)
    ensures Sorted(s + [x], f, desc)
  {
    var last := s[|s| - 1];
    forall i | 0 <= i < |s|
      ensures Before(s[i], x, f, desc)
    {
      if i < |s| - 1 {
        BeforeTransitive(s[i], last, x, f, desc);
      }
    }
  }

  /** A sorted sequence followed by a record that every one of its members may stay before. */
  lemma SnocSorted(r: seq<PortRecord>, y: PortRecord, f: Field, desc: bool)
    requires Sorted(r, f, desc)
    requires forall i :: 0 <= i < |r| ==> Before(r[i], y, f, desc)
    ensures Sorted(r + [y], f, desc)
  {
  }

  lemma {:induction false} InsertSorted(s: seq<PortRecord>, x: PortRecord, f: Field, desc: bool)
    requires Sorted(s, f, desc)
    ensures Sorted(Insert(s, x, f, desc), f, desc)
  {
    if s != [] {
      var last := s[|s| - 1];
      var init := s[..|s| - 1];
      if Before(last, x, f, desc) {
        AppendSorted(s, x, f, desc);
      } else {
        InsertSorted(init, x, f, desc);
        var r := Insert(init, x, f, desc);
        BeforeTotal(last, x, f, desc);
        forall i | 0 <= i < |r|
          ensures Before(r[i], last, f, desc)
        {
          InsertMember(init, x, f, desc, i);
          if r[i] != x {
            var j :| 0 <= j < |init| && init[j] == r[i];
            assert s[j] == init[j];
          }
        }
        SnocSorted(r, last, f, desc);
      }
    }
  }

  /** Inserting `x` appends it to the run of its own key and leaves every other run alone. */
  lemma {:induction false} InsertKeyFilter(s: seq<PortRecord>, x: PortRecord, f: Field, desc: bool, k: SortKey)
    ensures KeyFilter(Insert(s, x, f, desc), f, k) == KeyFilter(s, f, k) + KeyPart(x, f, k)
  {
    if s == [] {
      KeyFilterSnoc([], x, f, k);
      assert [] + [x] == [x];
    } else if Before(s[|s| - 1], x, f, desc) {
      KeyFilterSnoc(s, x, f, k);
    } else {
      var init := s[..|s| - 1];
      InsertKeyFilter(init, x, f, desc, k);
      InsertPastKeyFilter(s, x, f, desc, k);
    }
  }

  /** The step of `InsertKeyFilter` where `x` moves past the last record of `s`. */
  lemma InsertPastKeyFilter(s: seq<PortRecord>, x: PortRecord, f: Field, desc: bool, k: SortKey)
    requires s != [] && !Before(s[|s| - 1], x, f, desc)
    requires KeyFilter(Insert(s[..|s| - 1], x, f, desc), f, k) == KeyFilter(s[..|s| - 1], f, k) + KeyPart(x, f, k)
    ensures KeyFilter(Insert(s, x, f, desc), f, k) == KeyFilter(s, f, k) + KeyPart(x, f, k)
  {
    var last := s[|s| - 1];
    var init := s[..|s| - 1];
    var r := Insert(init, x, f, desc);
    InsertPast(s, x, f, desc);
    if SortKeyOf(last, f) == SortKeyOf(x, f) {
      BeforeSameKey(last, x, f, desc);
    }
    KeyFilterSnoc(r, last, f, k);
    LastSplit(s);
    KeyFilterSnoc(init, last, f, k);
    SwapEmpty(KeyFilter(init, f, k), KeyPart(x, f, k), KeyPart(last, f, k));
  }

  /** Where `x` may not stay after the last record of `s`, it is inserted into the rest. */
  lemma InsertPast(s: seq<PortRecord>, x: PortRecord, f: Field, desc: bool)
    requires s != [] && !Before(s[|s| - 1], x, f, desc)
    ensures Insert(s, x, f, desc) == Insert(s[..|s| - 1], x, f, desc) + [s[|s| - 1]]
  {
  }

  /** The sort orders its output. */
  lemma {:induction false} SortBySorted(s: seq<PortRecord>, f: Field, desc: bool)
    ensures Sorted(SortBy(s, f, desc), f, desc)
  {
    if s != [] {
      SortBySorted(s[..|s| - 1], f, desc);
      InsertSorted(SortBy(s[..|s| - 1], f, desc), s[|s| - 1], f, desc);
    }
  }

  /** The sort neither loses nor invents records. */
  lemma {:induction false} SortByPermutation(s: seq<PortRecord>, f: Field, desc: bool)
    ensures multiset(SortBy(s, f, desc)) == multiset(s)
  {
    if s != [] {
      var init := s[..|s| - 1];
      SortByPermutation(init, f, desc);
      LastSplit(s);
      calc {
        multiset(SortBy(s, f, desc));
        multiset(Insert(SortBy(init, f, desc), s[|s| - 1], f, desc));
        multiset(SortBy(init, f, desc)) + multiset{s[|s| - 1]};
        multiset(init) + multiset{s[|s| - 1]};
        multiset(init + [s[|s| - 1]]);
        multiset(s);
      }
    }
  }

  /** The sort is stable: records of equal key come out in their input order. */
  lemma {:induction false} SortByStable(s: seq<PortRecord>, f: Field, desc: bool, k: SortKey)
    ensures KeyFilter(SortBy(s, f, desc), f, k) == KeyFilter(s, f, k)
  {
    if s != [] {
      SortByStable(s[..|s| - 1], f, desc, k);
      InsertKeyFilter(SortBy(s[..|s| - 1], f, desc), s[|s| - 1], f, desc, k);
    }
  }

  /** The last record of a sorted list may follow every record of it. */
  lemma SortedLastMax(r: seq<PortRecord>, x: PortRecord, f: Field, desc: bool)
    requires Sorted(r, f, desc) && x in r
    ensures Before(x, r[|r| - 1], f, desc)
  {
    var i :| 0 <= i < |r| && r[i] == x;
    if i == |r| - 1 {
      BeforeSameKey(x, x, f, desc);
    }
  }

  /**
   * Two sorted lists with the same records, and the records of every key in the
   * same order, are equal: sorted, permutation and stable fix the output.
   */
  lemma {:induction false} SortedUnique(r1: seq<PortRecord>, r2: seq<PortRecord>, f: Field, desc: bool)
    requires Sorted(r1, f, desc) && Sorted(r2, f, desc) && multiset(r1) == multiset(r2)
    requires forall k :: KeyFilter(r1, f, k) == KeyFilter(r2, f, k)
    ensures r1 == r2
  {
    assert |r1| == |multiset(r1)| == |multiset(r2)| == |r2|;
    if r1 != [] {
      SameLast(r1, r2, f, desc);
      DropLastAgrees(r1, r2, f, desc);
      SortedUnique(r1[..|r1| - 1], r2[..|r2| - 1], f, desc);
      LastSplit(r1);
      LastSplit(r2);
    }
  }

  /** Such lists end in the same record: the last record of the largest key. */
  lemma SameLast(r1: seq<PortRecord>, r2: seq<PortRecord>, f: Field, desc: bool)
    requires r1 != [] && |r1| == |r2|
    requires Sorted(r1, f, desc) && Sorted(r2, f, desc) && multiset(r1) == multiset(r2)
    requires forall k :: KeyFilter(r1, f, k) == KeyFilter(r2, f, k)
    ensures r1[|r1| - 1] == r2[|r2| - 1]
  {
    var n := |r1| - 1;
    assert r1[n] in multiset(r2) && r2[n] in multiset(r1);
    SortedLastMax(r2, r1[n], f, desc);
    SortedLastMax(r1, r2[n], f, desc);
    BeforeBothWays(r1[n], r2[n], f, desc);
    var k := SortKeyOf(r1[n], f);
    SameLastOfKey(r1, r2, f, k);
  }

  /** Lists whose last records both have key `k`, with the same records of key `k`, end in the same record. */
  lemma SameLastOfKey(r1: seq<PortRecord>, r2: seq<PortRecord>, f: Field, k: SortKey)
    requires r1 != [] && r2 != [] && SortKeyOf(r1[|r1| - 1], f) == k && SortKeyOf(r2[|r2| - 1], f) == k
    requires KeyFilter(r1, f, k) == KeyFilter(r2, f, k)
    ensures r1[|r1| - 1] == r2[|r2| - 1]
  {
    var a, b := r1[|r1| - 1], r2[|r2| - 1];
    LastSplit(r1);
    LastSplit(r2);
    KeyFilterSnoc(r1[..|r1| - 1], a, f, k);
    KeyFilterSnoc(r2[..|r2| - 1], b, f, k);
    LastOfSnoc(KeyFilter(r1[..|r1| - 1], f, k), a);
    LastOfSnoc(KeyFilter(r2[..|r2| - 1], f, k), b);
  }

  /** Removing the common last record keeps the lists sorted, with the same records and the same order within every key. */
  lemma DropLastAgrees(r1: seq<PortRecord>, r2: seq<PortRecord>, f: Field, desc: bool)
    requires r1 != [] && |r1| == |r2| && r1[|r1| - 1] == r2[|r2| - 1]
    requires Sorted(r1, f, desc) && Sorted(r2, f, desc) && multiset(r1) == multiset(r2)
    requires forall k :: KeyFilter(r1, f, k) == KeyFilter(r2, f, k)
    ensures var n := |r1| - 1; Sorted(r1[..n], f, desc) && Sorted(r2[..n], f, desc)
    ensures var n := |r1| - 1; multiset(r1[..n]) == multiset(r2[..n])
    ensures var n := |r1| - 1; forall k :: KeyFilter(r1[..n], f, k) == KeyFilter(r2[..n], f, k)
  {
    SortedInit(r1, f, desc);
    SortedInit(r2, f, desc);
    MultisetDropLast(r1, r2);
    LastSplit(r1);
    LastSplit(r2);
    KeyFiltersDropLast(r1[..|r1| - 1], r2[..|r2| - 1], r1[|r1| - 1], f);
  }

  lemma SortedInit(r: seq<PortRecord>, f: Field, desc: bool)
    requires r != [] && Sorted(r, f, desc)
    ensures Sorted(r[..|r| - 1], f, desc)
  {
  }

  lemma MultisetDropLast(r1: seq<PortRecord>, r2: seq<PortRecord>)
    requires r1 != [] && |r1| == |r2| && r1[|r1| - 1] == r2[|r2| - 1] && multiset(r1) == multiset(r2)
    ensures multiset(r1[..|r1| - 1]) == multiset(r2[..|r2| - 1])
  {
    var a := r1[|r1| - 1];
    var m1, m2 := multiset(r1[..|r1| - 1]), multiset(r2[..|r2| - 1]);
    LastSplit(r1);
    LastSplit(r2);
    assert m1 + multiset{a} == m2 + multiset{a};
    forall x | true
      ensures m1[x] == m2[x]
    {
      assert (m1 + multiset{a})[x] == (m2 + multiset{a})[x];
    }
  }

  lemma KeyFiltersDropLast(init1: seq<PortRecord>, init2: seq<PortRecord>, a: PortRecord, f: Field)
    requires forall k :: KeyFilter(init1 + [a], f, k) == KeyFilter(init2 + [a], f, k)
    ensures forall k :: KeyFilter(init1, f, k) == KeyFilter(init2, f, k)
  {
    forall k | true
      ensures KeyFilter(init1, f, k) == KeyFilter(init2, f, k)
    {
      KeyFilterSnoc(init1, a, f, k);
      KeyFilterSnoc(init2, a, f, k);
      SnocCancel(KeyFilter(init1, f, k), KeyFilter(init2, f, k), KeyPart(a, f, k));
    }
  }

  /**
   * `SortBy` is the stable sort: any list that is sorted, holds the same records
   * and keeps the records of every key in input order is its result, so any stable
   * sort (Python's among them) gives the same list.
   */
  lemma SortByIsTheStableSort(s: seq<PortRecord>, r: seq<PortRecord>, f: Field, desc: bool)
    requires Sorted(r, f, desc) && multiset(r) == multiset(s)
    requires forall k :: KeyFilter(r, f, k) == KeyFilter(s, f, k)
    ensures r == SortBy(s, f, desc)
  {
    SortBySorted(s, f, desc);
    SortByPermutation(s, f, desc);
    forall k | true
      ensures KeyFilter(r, f, k) == KeyFilter(SortBy(s, f, desc), f, k)
    {
      SortByStable(s, f, desc, k);
    }
    SortedUnique(r, SortBy(s, f, desc), f, desc);
  }

  /** Sorting by port orders all-digit ports by value and puts every other port at 0. */
  lemma SortByPortNumeric(s: seq<PortRecord>, desc: bool, i: int, j: int)
    requires 0 <= i < j < |s|
    ensures var r := SortBy(s, Port, desc);
      if desc then PortNumber(r[i].port) >= PortNumber(r[j].port)
      else PortNumber(r[i].port) <= PortNumber(r[j].port)
  {
    SortBySorted(s, Port, desc);
  }

  /**
    Ascending by `port`, a port number written with fewer digits comes first: numeric
    order, not text order, where "10" would precede "9".
   */
  lemma SortByPortShorterFirst(s: seq<PortRecord>, i: int, j: int)
    requires 0 <= i < j < |s|
    requires var r := SortBy(s, Port, false);
      && r[i].port != [] && AllIn(r[i].port, Digit) && r[i].port[0] != '0'
      && r[j].port != [] && AllIn(r[j].port, Digit)
    ensures var r := SortBy(s, Port, false); |r[j].port| >= |r[i].port|
  {
    var r := SortBy(s, Port, false);
    SortByPortNumeric(s, false, i, j);
    if |r[j].port| < |r[i].port| {
      DecimalValueShorterSmaller(r[j].port, r[i].port);
    }
  }

  /** The numeric key orders "9" before "10", which text order does not. */
  lemma NineBeforeTen()
    ensures PortNumber("9") < PortNumber("10") && !LexLe("9", "10")
  {
    DecimalValueShorterSmaller("9", "10");
  }

  /** Sorting by a text field orders records by that text, None counting as "". */
  lemma SortByText(s: seq<PortRecord>, f: Field, desc: bool, i: int, j: int)
    requires f != Port && 0 <= i < j < |s|
    ensures var r := SortBy(s, f, desc);
      SortKeyOf(r[i], f).Str? && SortKeyOf(r[j], f).Str? &&
      if desc then LexLe(SortKeyOf(r[j], f).s, SortKeyOf(r[i], f).s)
      else LexLe(SortKeyOf(r[i], f).s, SortKeyOf(r[j], f).s)
  {
    SortBySorted(s, f, desc);
  }

  // ----- the sort step of the query -----

  /** Sorts by a whitelisted field; any other field name leaves the list as it is. */
  function SortRecords(recs: seq<PortRecord>, fieldName: string, direction: string): (r: seq<PortRecord>)
    ensures FieldNamed(fieldName).None? ==> r == recs
  {
    match FieldNamed(fieldName)
    case None => recs
    case Some(f) => SortBy(recs, f, direction == "desc")
  }

  /** Whatever the field name, the sort step is a permutation of its input. */
  lemma SortRecordsPermutation(recs: seq<PortRecord>, fieldName: string, direction: string)
    ensures multiset(SortRecords(recs, fieldName, direction)) == multiset(recs)
  {
    if FieldNamed(fieldName).Some? {
      SortByPermutation(recs, FieldNamed(fieldName).value, direction == "desc");
    }
  }
}
