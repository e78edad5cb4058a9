/**
 * The ordering `find_all` sorts its records by, and the stable sort it uses.
 *
 * `sort_by` in Rust is a stable sort: records that compare equal keep the
 * order they had. The model defines that sort once as a function
 * (`StableSort`, an insertion sort on sequences), proves it sorted, a
 * permutation and stable, and proves that those three properties determine
 * the output completely (`SortedUnique`), so any stable sort gives the same
 * answer. `SortInPlace` is the in-place array version of it.
 */
module LogSort {
  import opened Text
  import opened LogDomain

  /** The fields a query can sort by. */
  datatype SortKey = ByCount | ByIp | ByDevice | ByDeviceId | ByAction | ByTimestamp

  /** A sort field and a direction. */
  datatype SortOrder = SortOrder(key: SortKey, ascending: bool)

  /** The value of a record under a sort field. */
  datatype KeyValue = CountKey(n: nat) | TextKey(s: string)

  /** The name of a sort field; any unrecognised name sorts by timestamp. */
  function KeyNamed(sortBy: string): (k: SortKey)
    ensures k == ByTimestamp <==>
      sortBy !in {"count", "ip", "device", "device_id", "action"}
  {
    if sortBy == "count" then ByCount
    else if sortBy == "ip" then ByIp
    else if sortBy == "device" then ByDevice
    else if sortBy == "device_id" then ByDeviceId
    else if sortBy == "action" then ByAction
    else ByTimestamp
  }

  /** The order a query asks for: ascending exactly when `order` is "asc", descending otherwise. */
  function OrderOf(sortBy: string, order: string): (o: SortOrder)
    ensures o.key == KeyNamed(sortBy)
    ensures o.ascending <==> order == "asc"
  {
    SortOrder(KeyNamed(sortBy), order == "asc")
  }

  function KeyOf(k: SortKey, e: LogEntry): KeyValue
  {
    match k
    case ByCount => CountKey(e.count)
    case ByIp => TextKey(e.ip)
    case ByDevice => TextKey(e.device)
    case ByDeviceId => TextKey(e.deviceId)
    case ByAction => TextKey(e.action)
    case ByTimestamp => TextKey(e.timestamp)
  }

  /** The ascending comparison of two records on one field. */
  function CompareKeys(k: SortKey, a: LogEntry, b: LogEntry): Ordering
  {
    match k
    case ByCount => CompareNat(a.count, b.count)
    case ByIp => CompareStr(a.ip, b.ip)
    case ByDevice => CompareStr(a.device, b.device)
    case ByDeviceId => CompareStr(a.deviceId, b.deviceId)
    case ByAction => CompareStr(a.action, b.action)
    case ByTimestamp => CompareStr(a.timestamp, b.timestamp)
  }

  /** The comparator handed to `sort_by`: the field comparison, reversed unless ascending. */
  function Compare(o: SortOrder, a: LogEntry, b: LogEntry): Ordering
  {
    if o.ascending then CompareKeys(o.key, a, b) else CompareKeys(o.key, a, b).Reverse()
  }

  /** `a` may come before `b`. */
  predicate InOrder(o: SortOrder, a: LogEntry, b: LogEntry)
  {
    Compare(o, a, b) != Greater
  }

  predicate Sorted(o: SortOrder, s: seq<LogEntry>)
  {
    forall i, j :: 0 <= i < j < |s| ==> InOrder(o, s[i], s[j])
  }

  /**
   * What `order` means on sorted data: with "asc" no record's key is greater
   * than a later one's; with any other order no record's key is smaller.
   */
  lemma SortedDirection(sortBy: string, order: string, s: seq<LogEntry>, i: nat, j: nat)
    requires Sorted(OrderOf(sortBy, order), s) && i < j < |s|
    ensures order == "asc" ==> CompareKeys(KeyNamed(sortBy), s[i], s[j]) != Greater
    ensures order != "asc" ==> CompareKeys(KeyNamed(sortBy), s[i], s[j]) != Less
  {
    assert InOrder(OrderOf(sortBy, order), s[i], s[j]);
  }

  /** A run of a sorted sequence is sorted. */
  lemma SortedSlice(o: SortOrder, s: seq<LogEntry>, i: nat, j: nat)
    requires Sorted(o, s) && i <= j <= |s|
    ensures Sorted(o, s[i..j])
  {
    forall a, b | 0 <= a < b < j - i ensures InOrder(o, s[i..j][a], s[i..j][b]) {
      assert s[i..j][a] == s[i + a] && s[i..j][b] == s[i + b];
    }
  }

  // ------------------------------------------------------------------
  // The comparator is a total preorder whose ties are the equal keys

  /** Two records tie exactly when they have the same value in the sort field. */
  lemma CompareEqual(o: SortOrder, a: LogEntry, b: LogEntry)
    ensures Compare(o, a, b) == Equal <==> KeyOf(o.key, a) == KeyOf(o.key, b)
  {
    match o.key
    case ByCount =>
    case ByIp => CompareStrEqual(a.ip, b.ip);
    case ByDevice => CompareStrEqual(a.device, b.device);
    case ByDeviceId => CompareStrEqual(a.deviceId, b.deviceId);
    case ByAction => CompareStrEqual(a.action, b.action);
    case ByTimestamp => CompareStrEqual(a.timestamp, b.timestamp);
  }

  /** Swapping the arguments reverses the comparison. */
  lemma CompareAntisymmetric(o: SortOrder, a: LogEntry, b: LogEntry)
    ensures Compare(o, b, a) == Compare(o, a, b).Reverse()
  {
    match o.key
    case ByCount =>
    case ByIp => CompareStrReverse(a.ip, b.ip);
    case ByDevice => CompareStrReverse(a.device, b.device);
    case ByDeviceId => CompareStrReverse(a.deviceId, b.deviceId);
    case ByAction => CompareStrReverse(a.action, b.action);
    case ByTimestamp => CompareStrReverse(a.timestamp, b.timestamp);
  }

  /** A comparison only looks at the sort field. */
  lemma CompareByKey(o: SortOrder, a: LogEntry, a': LogEntry, b: LogEntry)
    requires KeyOf(o.key, a) == KeyOf(o.key, a')
    ensures Compare(o, a, b) == Compare(o, a', b)
  {
  }

  lemma KeysLessTransitive(k: SortKey, a: LogEntry, b: LogEntry, c: LogEntry)
    requires CompareKeys(k, a, b) == Less && CompareKeys(k, b, c) == Less
    ensures CompareKeys(k, a, c) == Less
  {
    match k
    case ByCount =>
    case ByIp => CompareStrTransitive(a.ip, b.ip, c.ip);
    case ByDevice => CompareStrTransitive(a.device, b.device, c.device);
    case ByDeviceId => CompareStrTransitive(a.deviceId, b.deviceId, c.deviceId);
    case ByAction => CompareStrTransitive(a.action, b.action, c.action);
    case ByTimestamp => CompareStrTransitive(a.timestamp, b.timestamp, c.timestamp);
  }

  /** "May come before" is transitive, in either direction. */
  lemma InOrderTransitive(o: SortOrder, a: LogEntry, b: LogEntry, c: LogEntry)
    requires InOrder(o, a, b) && InOrder(o, b, c)
    ensures InOrder(o, a, c)
  {
    CompareEqual(o, a, b);
    CompareEqual(o, b, c);
    if Compare(o, a, b) == Equal {
      CompareByKey(o, a, b, c);
    } else if Compare(o, b, c) == Equal {
      CompareAntisymmetric(o, a, b);
      CompareAntisymmetric(o, a, c);
      CompareByKey(o, b, c, a);
    } else if o.ascending {
      KeysLessTransitive(o.key, a, b, c);
    } else {
      var up := SortOrder(o.key, true);
      CompareAntisymmetric(up, a, b);
      CompareAntisymmetric(up, b, c);
      CompareAntisymmetric(up, a, c);
      KeysLessTransitive(o.key, c, b, a);
    }
  }

  // ------------------------------------------------------------------
  // Stability: the records of each key value, in order

  /** The records of `s` whose sort field holds `v`, in the order of `s`. */
  function WithKey(s: seq<LogEntry>, k: SortKey, v: KeyValue): seq<LogEntry>
  {
    if s == [] then []
    else WithKey(s[..|s| - 1], k, v) + (if KeyOf(k, s[|s| - 1]) == v then [s[|s| - 1]] else [])
  }

  /** Every tie class keeps its order: what a stable sort promises. */
  ghost predicate KeepsTies(o: SortOrder, r: seq<LogEntry>, s: seq<LogEntry>)
  {
    forall v :: WithKey(r, o.key, v) == WithKey(s, o.key, v)
  }

  lemma {:induction false} WithKeyConcat(a: seq<LogEntry>, b: seq<LogEntry>, k: SortKey, v: KeyValue)
    ensures WithKey(a + b, k, v) == WithKey(a, k, v) + WithKey(b, k, v)
    decreases |b|
  {
    if b == [] {
      assert a + b == a;
    } else {
      var b' := b[..|b| - 1];
      assert (a + b)[..|a + b| - 1] == a + b';
      WithKeyConcat(a, b', k, v);
    }
  }

  lemma {:induction false} WithKeyMember(s: seq<LogEntry>, k: SortKey, v: KeyValue, y: LogEntry)
    requires y in WithKey(s, k, v)
    ensures y in s && KeyOf(k, y) == v
  {
    if s != [] {
      var s' := s[..|s| - 1];
      if y in WithKey(s', k, v) {
        WithKeyMember(s', k, v, y);
        assert s == s' + [s[|s| - 1]];
      }
    }
  }

  // ------------------------------------------------------------------
  // The reference sort

  /** Insert `x` into sorted `t` after every record it does not sort strictly before. */
  function Insert(o: SortOrder, t: seq<LogEntry>, x: LogEntry): seq<LogEntry>
  {
    if t == [] || Compare(o, x, t[|t| - 1]) != Less then t + [x]
    else Insert(o, t[..|t| - 1], x) + [t[|t| - 1]]
  }

  /** Stable insertion sort. */
  function StableSort(o: SortOrder, s: seq<LogEntry>): seq<LogEntry>
  {
    if s == [] then [] else Insert(o, StableSort(o, s[..|s| - 1]), s[|s| - 1])
  }

  lemma {:induction false} InsertPermutes(o: SortOrder, t: seq<LogEntry>, x: LogEntry)
    ensures multiset(Insert(o, t, x)) == multiset(t) + multiset{x}
  {
    if t != [] && Compare(o, x, t[|t| - 1]) == Less {
      var t' := t[..|t| - 1];
      InsertPermutes(o, t', x);
      assert t == t' + [t[|t| - 1]];
    }
  }

  lemma {:induction false} InsertSorted(o: SortOrder, t: seq<LogEntry>, x: LogEntry)
    requires Sorted(o, t)
    ensures Sorted(o, Insert(o, t, x))
  {
    var r := Insert(o, t, x);
    if t == [] {
    } else if Compare(o, x, t[|t| - 1]) != Less {
      var last := t[|t| - 1];
      CompareAntisymmetric(o, x, last);
      forall i, j | 0 <= i < j < |r| ensures InOrder(o, r[i], r[j]) {
        if j == |r| - 1 && i < |t| - 1 {
          InOrderTransitive(o, t[i], last, x);
        }
      }
    } else {
      var t' := t[..|t| - 1];
      var last := t[|t| - 1];
      var r' := Insert(o, t', x);
      InsertSorted(o, t', x);
      InsertPermutes(o, t', x);
      forall i, j | 0 <= i < j < |r| ensures InOrder(o, r[i], r[j]) {
        if j == |r| - 1 {
          assert r[i] in multiset(r');
          if r[i] != x {
            assert r[i] in t';
            var m :| 0 <= m < |t'| && t'[m] == r[i];
            assert InOrder(o, t[m], t[|t| - 1]);
          }
        } else {
          assert r[i] == r'[i] && r[j] == r'[j];
        }
      }
    }
  }

  lemma WithKeyOne(x: LogEntry, k: SortKey, v: KeyValue)
    ensures WithKey([x], k, v) == if KeyOf(k, x) == v then [x] else []
  {
    assert [x][..0] == [];
  }

  /** Appending one record appends it to its own tie class only. */
  lemma WithKeySnoc(u: seq<LogEntry>, y: LogEntry, k: SortKey, v: KeyValue)
    ensures WithKey(u + [y], k, v) == WithKey(u, k, v) + (if KeyOf(k, y) == v then [y] else [])
  {
    assert (u + [y])[..|u|] == u;
  }

  /** Moving a record past one of another key leaves every tie class as it was. */
  lemma SwapTies(u: seq<LogEntry>, t: seq<LogEntry>, x: LogEntry, y: LogEntry, k: SortKey, v: KeyValue)
    requires KeyOf(k, x) != KeyOf(k, y)
    requires WithKey(u, k, v) == WithKey(t, k, v) + WithKey([x], k, v)
    ensures WithKey(u + [y], k, v) == WithKey(t + [y], k, v) + WithKey([x], k, v)
  {
    WithKeySnoc(u, y, k, v);
    WithKeySnoc(t, y, k, v);
    WithKeyOne(x, k, v);
  }

  lemma {:induction false} InsertKeepsTies(o: SortOrder, t: seq<LogEntry>, x: LogEntry, v: KeyValue)
    ensures WithKey(Insert(o, t, x), o.key, v) == WithKey(t, o.key, v) + WithKey([x], o.key, v)
  {
    var k := o.key;
    if t != [] && Compare(o, x, t[|t| - 1]) == Less {
      var t', last := t[..|t| - 1], t[|t| - 1];
      InsertKeepsTies(o, t', x, v);
      CompareEqual(o, x, last);
      assert t == t' + [last];
      SwapTies(Insert(o, t', x), t', x, last, k, v);
    } else {
      WithKeyConcat(t, [x], k, v);
    }
  }

  /** The reference sort is a permutation of its input. */
  lemma {:induction false} StableSortPermutes(o: SortOrder, s: seq<LogEntry>)
    ensures multiset(StableSort(o, s)) == multiset(s)
  {
    if s != [] {
      var s' := s[..|s| - 1];
      StableSortPermutes(o, s');
      InsertPermutes(o, StableSort(o, s'), s[|s| - 1]);
      SnocMultiset(s', s[|s| - 1], s);
    }
  }

  lemma SnocMultiset(s': seq<LogEntry>, x: LogEntry, s: seq<LogEntry>)
    requires s != [] && s' == s[..|s| - 1] && x == s[|s| - 1]
    ensures multiset(s) == multiset(s') + multiset{x}
  {
    assert s == s' + [x];
  }

  /** The reference sort orders its output by the comparator. */
  lemma {:induction false} StableSortSorted(o: SortOrder, s: seq<LogEntry>)
    ensures Sorted(o, StableSort(o, s))
  {
    if s != [] {
      StableSortSorted(o, s[..|s| - 1]);
      InsertSorted(o, StableSort(o, s[..|s| - 1]), s[|s| - 1]);
    }
  }

  /** The reference sort is stable: records with equal keys keep their input order. */
  lemma {:induction false} StableSortKeepsTies(o: SortOrder, s: seq<LogEntry>)
    ensures KeepsTies(o, StableSort(o, s), s)
  {
    if s != [] {
      var s' := s[..|s| - 1];
      StableSortKeepsTies(o, s');
      forall v ensures WithKey(StableSort(o, s), o.key, v) == WithKey(s, o.key, v) {
        InsertKeepsTies(o, StableSort(o, s'), s[|s| - 1], v);
        assert [s[|s| - 1]][..0] == [];
      }
    }
  }

  lemma LastHasTies(s: seq<LogEntry>, k: SortKey)
    ensures s != [] ==> WithKey(s, k, KeyOf(k, s[|s| - 1])) != []
  {
  }

  lemma SortedPrefix(o: SortOrder, s: seq<LogEntry>)
    requires Sorted(o, s) && s != []
    ensures Sorted(o, s[..|s| - 1])
  {
  }

  /**
   * A sorted sequence is determined by its tie classes: two sorted
   * sequences with the same records of every key value, in the same order,
   * are equal.
   */
  lemma {:induction false} SortedUnique(o: SortOrder, r: seq<LogEntry>, m: seq<LogEntry>)
    requires Sorted(o, r) && Sorted(o, m)
    requires forall v :: WithKey(r, o.key, v) == WithKey(m, o.key, v)
    ensures r == m
    decreases |r| + |m|
  {
    LastHasTies(r, o.key);
    LastHasTies(m, o.key);
    if r == [] || m == [] {
      // the last record of the other one has a tie class this one lacks
    } else {
      LastsAgree(o, r, m);
      assert r == r[..|r| - 1] + [r[|r| - 1]] && m == m[..|m| - 1] + [r[|r| - 1]];
      DropLastTies(r[..|r| - 1], m[..|m| - 1], r[|r| - 1], o.key);
      SortedPrefix(o, r);
      SortedPrefix(o, m);
      SortedUnique(o, r[..|r| - 1], m[..|m| - 1]);
      assert r == r[..|r| - 1] + [r[|r| - 1]] && m == m[..|m| - 1] + [m[|m| - 1]];
    }
  }

  /** Two sorted sequences with the same tie classes end with the same record. */
  lemma LastsAgree(o: SortOrder, r: seq<LogEntry>, m: seq<LogEntry>)
    requires Sorted(o, r) && Sorted(o, m) && r != [] && m != []
    requires forall v :: WithKey(r, o.key, v) == WithKey(m, o.key, v)
    ensures r[|r| - 1] == m[|m| - 1]
  {
    var k := o.key;
    var a, b := r[|r| - 1], m[|m| - 1];
    var va, vb := KeyOf(k, a), KeyOf(k, b);
    LastInClass(r, k);
    assert a in WithKey(m, k, va);
    WithKeyMember(m, k, va, a);
    LastComesLast(o, m, a);
    LastInClass(m, k);
    assert b in WithKey(r, k, vb);
    WithKeyMember(r, k, vb, b);
    LastComesLast(o, r, b);
    CompareAntisymmetric(o, a, b);
    CompareEqual(o, a, b);
    SameClassLast(r, m, k, va);
  }

  lemma LastInClass(s: seq<LogEntry>, k: SortKey)
    requires s != []
    ensures s[|s| - 1] in WithKey(s, k, KeyOf(k, s[|s| - 1]))
  {
  }

  lemma LastComesLast(o: SortOrder, s: seq<LogEntry>, x: LogEntry)
    requires Sorted(o, s) && x in s
    ensures InOrder(o, x, s[|s| - 1])
  {
    var i :| 0 <= i < |s| && s[i] == x;
    if i == |s| - 1 {
      CompareEqual(o, x, x);
    }
  }

  /** Two sequences whose class of `v` agrees and whose last records are both in it end alike. */
  lemma SameClassLast(r: seq<LogEntry>, m: seq<LogEntry>, k: SortKey, v: KeyValue)
    requires r != [] && m != [] && KeyOf(k, r[|r| - 1]) == v && KeyOf(k, m[|m| - 1]) == v
    requires WithKey(r, k, v) == WithKey(m, k, v)
    ensures r[|r| - 1] == m[|m| - 1]
  {
    var w := WithKey(r, k, v);
    assert w == WithKey(r[..|r| - 1], k, v) + [r[|r| - 1]];
    assert w == WithKey(m[..|m| - 1], k, v) + [m[|m| - 1]];
    assert w[|w| - 1] == r[|r| - 1];
  }

  /** Dropping the same last record from both keeps the tie classes equal. */
  lemma DropLastTies(r: seq<LogEntry>, m: seq<LogEntry>, x: LogEntry, k: SortKey)
    requires forall v :: WithKey(r + [x], k, v) == WithKey(m + [x], k, v)
    ensures forall v :: WithKey(r, k, v) == WithKey(m, k, v)
  {
    forall v ensures WithKey(r, k, v) == WithKey(m, k, v) {
      var tail := if KeyOf(k, x) == v then [x] else [];
      var w := WithKey(r + [x], k, v);
      assert (r + [x])[..|r|] == r && (m + [x])[..|m|] == m;
      assert w == WithKey(r, k, v) + tail;
      assert w == WithKey(m, k, v) + tail;
      assert WithKey(r, k, v) == w[..|w| - |tail|];
    }
  }

  /** Any sorted, stable rearrangement of `s` is the reference sort of `s`. */
  lemma StableSortUnique(o: SortOrder, s: seq<LogEntry>, r: seq<LogEntry>)
    requires Sorted(o, r) && KeepsTies(o, r, s)
    ensures r == StableSort(o, s)
  {
    StableSortSorted(o, s);
    StableSortKeepsTies(o, s);
    SortedUnique(o, r, StableSort(o, s));
  }

  // ------------------------------------------------------------------
  // The in-place sort

  /** Moves `a[i]` left past every record it sorts strictly before, shifting them right. */
  method InsertLast(a: array<LogEntry>, i: nat, o: SortOrder)
    requires i < a.Length
    modifies a
    ensures a[..i + 1] == Insert(o, old(a[..i]), old(a[i]))
    ensures a[i + 1..] == old(a[i + 1..])
  {
    var x := a[i];
    ghost var t, rest := a[..i], a[i + 1..];
    assert a[..] == t + [x] + rest;
    assert t[..i] == t && t[i..] == [];
    var j := i;
    while j > 0 && Compare(o, x, a[j - 1]) == Less
      invariant 0 <= j <= i
      invariant a[..] == t[..j] + [a[j]] + t[j..] + rest
      invariant Insert(o, t, x) == Insert(o, t[..j], x) + t[j..]
    {
      ghost var cur := a[..];
      ShiftStep(o, t, x, j);
      a[j] := a[j - 1];
      ShiftArrayStep(t, rest, j, cur, a[..]);
      j := j - 1;
    }
    ghost var cur := a[..];
    a[j] := x;
    assert Insert(o, t[..j], x) == t[..j] + [x];
    PlaceArrayStep(t, rest, j, x, cur, a[..]);
  }

  /** One step of the shift: `x` moves past `t[j - 1]`. */
  lemma ShiftStep(o: SortOrder, t: seq<LogEntry>, x: LogEntry, j: nat)
    requires 0 < j <= |t| && Compare(o, x, t[j - 1]) == Less
    requires Insert(o, t, x) == Insert(o, t[..j], x) + t[j..]
    ensures Insert(o, t, x) == Insert(o, t[..j - 1], x) + t[j - 1..]
  {
    assert t[..j][..j - 1] == t[..j - 1];
    assert t[j - 1..] == [t[j - 1]] + t[j..];
  }

  /** Copying `t[j - 1]` one place right opens the gap at `j - 1`. */
  lemma ShiftArrayStep(t: seq<LogEntry>, rest: seq<LogEntry>, j: nat, cur: seq<LogEntry>, next: seq<LogEntry>)
    requires 0 < j <= |t| && |cur| == |t| + 1 + |rest| && cur == t[..j] + [cur[j]] + t[j..] + rest
    requires next == cur[j := cur[j - 1]]
    ensures next == t[..j - 1] + [next[j - 1]] + t[j - 1..] + rest
  {
    assert cur[j - 1] == t[j - 1];
    assert t[..j] == t[..j - 1] + [t[j - 1]];
    assert t[j - 1..] == [t[j - 1]] + t[j..];
  }

  /** Filling the gap with `x` gives the inserted prefix and leaves the rest. */
  lemma PlaceArrayStep(t: seq<LogEntry>, rest: seq<LogEntry>, j: nat, x: LogEntry, cur: seq<LogEntry>, next: seq<LogEntry>)
    requires j <= |t| && |cur| == |t| + 1 + |rest| && cur == t[..j] + [cur[j]] + t[j..] + rest
    requires next == cur[j := x]
    ensures next[..|t| + 1] == t[..j] + [x] + t[j..] && next[|t| + 1..] == rest
  {
    assert next == t[..j] + [x] + t[j..] + rest;
  }

  /** Sorts `a[..n]` in place by insertion, leaving the rest of `a` alone. */
  method SortInPlace(a: array<LogEntry>, n: nat, o: SortOrder)
    requires n <= a.Length
    modifies a
    ensures a[..n] == StableSort(o, old(a[..n]))
    ensures a[n..] == old(a[n..])
  {
    ghost var s, rest := a[..n], a[n..];
    SortBegins(o, a[..], s, rest);
    var i := 0;
    while i < n
      invariant 0 <= i <= n
      invariant a[..] == StableSort(o, s[..i]) + s[i..] + rest
    {
      ghost var before := a[..];
      InsertLast(a, i, o);
      SortStep(o, s, rest, i, before, a[..]);
      i := i + 1;
    }
    SortDone(o, a[..], s, rest);
    assert a[..n] == a[..][..n] && a[n..] == a[..][n..];
  }

  /** One step of the sort: the next record is inserted into the sorted prefix. */
  lemma SortStep(o: SortOrder, s: seq<LogEntry>, rest: seq<LogEntry>, i: nat, before: seq<LogEntry>, after: seq<LogEntry>)
    requires i < |s| && before == StableSort(o, s[..i]) + s[i..] + rest
    requires |before| == |after| == |s| + |rest|
    requires after[..i + 1] == Insert(o, before[..i], before[i]) && after[i + 1..] == before[i + 1..]
    ensures after == StableSort(o, s[..i + 1]) + s[i + 1..] + rest
  {
    StableSortLength(o, s[..i]);
    StableSortLength(o, s[..i + 1]);
    assert before[..i] == StableSort(o, s[..i]);
    assert before[i] == s[i];
    assert before[i + 1..] == s[i + 1..] + rest;
    assert s[..i + 1][..i] == s[..i];
    assert after == after[..i + 1] + after[i + 1..];
  }

  lemma SortBegins(o: SortOrder, all: seq<LogEntry>, s: seq<LogEntry>, rest: seq<LogEntry>)
    requires all == s + rest
    ensures all == StableSort(o, s[..0]) + s[0..] + rest
  {
    assert s[..0] == [];
  }

  lemma SortDone(o: SortOrder, all: seq<LogEntry>, s: seq<LogEntry>, rest: seq<LogEntry>)
    requires all == StableSort(o, s[..|s|]) + s[|s|..] + rest && |all| == |s| + |rest|
    ensures all[..|s|] == StableSort(o, s) && all[|s|..] == rest
  {
    assert s[..|s|] == s && s[|s|..] == [];
    StableSortLength(o, s);
  }

  lemma {:induction false} StableSortLength(o: SortOrder, s: seq<LogEntry>)
    ensures |StableSort(o, s)| == |s|
  {
    StableSortPermutes(o, s);
    assert |multiset(StableSort(o, s))| == |multiset(s)|;
  }
}
