/**
 * The stages the two log readers share after decoding: the search filter
 * (`retain` on the decoded vector), distinct-value counts, and the
 * skip/take pagination with its page count.
 */
module LogPipeline {
  import opened Wrappers
  import opened Text
  import opened LogDomain

  // ------------------------------------------------------------------
  // Search filter

  /** `field.to_lowercase().contains(q)`, for an already lower-cased `q`. */
  predicate FieldMatches(field: string, q: string)
  {
    Contains(ToLower(field), q)
  }

  /**
   * The `retain` closure: the lower-cased query occurs in one of the five
   * text fields. Count, duration and the raw line are not searched.
   */
  predicate Matches(e: LogEntry, q: string)
  {
    FieldMatches(e.timestamp, q) || FieldMatches(e.ip, q) || FieldMatches(e.device, q)
    || FieldMatches(e.deviceId, q) || FieldMatches(e.action, q)
  }

  /** Count, duration and the raw line never decide whether a record matches. */
  lemma MatchesIgnoresUnsearched(e: LogEntry, q: string, count: U32, duration: Option<string>, raw: string)
    ensures Matches(e.(count := count, duration := duration, raw := raw), q) == Matches(e, q)
  {
  }

  /** The records of `s` that match `q`, in the order of `s`. */
  function Keep(s: seq<LogEntry>, q: string): seq<LogEntry>
  {
    if s == [] then []
    else Keep(s[..|s| - 1], q) + (if Matches(s[|s| - 1], q) then [s[|s| - 1]] else [])
  }

  /** The filter stage: no query keeps everything, a query is lower-cased first. */
  function SearchFilter(s: seq<LogEntry>, q: Option<string>): seq<LogEntry>
  {
    match q
    case None => s
    case Some(text) => Keep(s, ToLower(text))
  }

  /** Filtering a concatenation filters each part: the kept records stay in input order. */
  lemma {:induction false} KeepConcat(a: seq<LogEntry>, b: seq<LogEntry>, q: string)
    ensures Keep(a + b, q) == Keep(a, q) + Keep(b, q)
    decreases |b|
  {
    if b == [] {
      assert a + b == a;
    } else {
      var b' := b[..|b| - 1];
      assert (a + b)[..|a + b| - 1] == a + b';
      KeepConcat(a, b', q);
    }
  }

  /** A single record is kept exactly when it matches. */
  lemma KeepOne(x: LogEntry, q: string)
    ensures Keep([x], q) == (if Matches(x, q) then [x] else [])
  {
    assert [x][..0] == [];
  }

  /** The filter keeps exactly the matching records. */
  lemma {:induction false} KeepMember(s: seq<LogEntry>, q: string, x: LogEntry)
    ensures x in Keep(s, q) <==> x in s && Matches(x, q)
  {
    if s != [] {
      var s' := s[..|s| - 1];
      KeepMember(s', q, x);
      assert s == s' + [s[|s| - 1]];
    }
  }

  /** The filter never adds or duplicates a record. */
  lemma {:induction false} KeepSubMultiset(s: seq<LogEntry>, q: string)
    ensures multiset(Keep(s, q)) <= multiset(s)
  {
    if s != [] {
      var s' := s[..|s| - 1];
      KeepSubMultiset(s', q);
      assert s == s' + [s[|s| - 1]];
    }
  }

  /** Every string contains the empty string. */
  lemma ContainsEmpty(hay: string)
    ensures Contains(hay, [])
  {
    assert hay[0..0] == [];
  }

  /** An empty search text keeps every record. */
  lemma {:induction false} EmptySearchKeepsAll(s: seq<LogEntry>)
    ensures SearchFilter(s, Some("")) == s
  {
    if s != [] {
      EmptySearchKeepsAll(s[..|s| - 1]);
      ContainsEmpty(ToLower(s[|s| - 1].timestamp));
    }
  }

  /**
   * `retain` on the decoded vector: compacts the matching records to the
   * front of `a` and returns how many there are.
   */
  method RetainMatching(a: array<LogEntry>, q: string) returns (n: nat)
    modifies a
    ensures n <= a.Length && a[..n] == Keep(old(a[..]), q)
  {
    ghost var s := a[..];
    n := 0;
    var i := 0;
    while i < a.Length
      invariant 0 <= n <= i <= a.Length
      invariant a[..n] == Keep(s[..i], q)
      invariant a[i..] == s[i..]
    {
      assert s[..i + 1][..i] == s[..i];
      if Matches(a[i], q) {
        a[n] := a[i];
        n := n + 1;
      }
      i := i + 1;
    }
    assert s[..a.Length] == s;
  }

  // ------------------------------------------------------------------
  // Distinct counts

  /** The values in `xs`, as a `HashSet` collects them. */
  function Distinct(xs: seq<string>): set<string>
  {
    set x | x in xs
  }

  /** The IPs of the records, in order. */
  function Ips(s: seq<LogEntry>): (r: seq<string>)
    ensures |r| == |s| && forall i :: 0 <= i < |s| ==> r[i] == s[i].ip
  {
    seq(|s|, i requires 0 <= i < |s| => s[i].ip)
  }

  /** The device ids of the records, in order. */
  function DeviceIds(s: seq<LogEntry>): (r: seq<string>)
    ensures |r| == |s| && forall i :: 0 <= i < |s| ==> r[i] == s[i].deviceId
  {
    seq(|s|, i requires 0 <= i < |s| => s[i].deviceId)
  }

  /** There are no more distinct values than values, and none only for no values. */
  lemma {:induction false} DistinctBound(xs: seq<string>)
    ensures |Distinct(xs)| <= |xs|
    ensures |Distinct(xs)| == 0 <==> xs == []
  {
    if xs != [] {
      var xs' := xs[..|xs| - 1];
      DistinctBound(xs');
      assert xs == xs' + [xs[|xs| - 1]];
      assert Distinct(xs) == Distinct(xs') + {xs[|xs| - 1]};
    }
  }

  /** A distinct count does not depend on the order of the values. */
  lemma DistinctPermutation(xs: seq<string>, ys: seq<string>)
    requires multiset(xs) == multiset(ys)
    ensures Distinct(xs) == Distinct(ys)
  {
    forall x ensures x in Distinct(xs) <==> x in Distinct(ys) {
      assert x in xs <==> x in multiset(xs);
      assert x in ys <==> x in multiset(ys);
    }
  }

  /** The distinct counts are the sizes of the sets of IPs and of device ids of the records. */
  lemma DistinctFields(s: seq<LogEntry>)
    ensures Distinct(Ips(s)) == set e | e in s :: e.ip
    ensures Distinct(DeviceIds(s)) == set e | e in s :: e.deviceId
  {
    DistinctIps(s);
    DistinctDeviceIds(s);
  }

  lemma {:induction false} DistinctIps(s: seq<LogEntry>)
    ensures Distinct(Ips(s)) == set e | e in s :: e.ip
  {
    var a, b := Distinct(Ips(s)), set e | e in s :: e.ip;
    forall x | x in a ensures x in b {
      var i :| 0 <= i < |s| && Ips(s)[i] == x;
      assert s[i] in s;
    }
    forall x | x in b ensures x in a {
      var e :| e in s && e.ip == x;
      var i :| 0 <= i < |s| && s[i] == e;
      assert Ips(s)[i] == x;
    }
  }

  lemma {:induction false} DistinctDeviceIds(s: seq<LogEntry>)
    ensures Distinct(DeviceIds(s)) == set e | e in s :: e.deviceId
  {
    var a, b := Distinct(DeviceIds(s)), set e | e in s :: e.deviceId;
    forall x | x in a ensures x in b {
      var i :| 0 <= i < |s| && DeviceIds(s)[i] == x;
      assert s[i] in s;
    }
    forall x | x in b ensures x in a {
      var e :| e in s && e.deviceId == x;
      var i :| 0 <= i < |s| && s[i] == e;
      assert DeviceIds(s)[i] == x;
    }
  }

  lemma {:induction false} DistinctFieldsPermutation(s: seq<LogEntry>, t: seq<LogEntry>)
    requires multiset(s) == multiset(t)
    ensures Distinct(Ips(s)) == Distinct(Ips(t))
    ensures Distinct(DeviceIds(s)) == Distinct(DeviceIds(t))
  {
    forall x ensures (x in Ips(s) <==> x in Ips(t)) && (x in DeviceIds(s) <==> x in DeviceIds(t)) {
      forall e | e in s ensures e in t {
        assert e in multiset(s);
      }
      forall e | e in t ensures e in s {
        assert e in multiset(t);
      }
      if x in Ips(s) {
        var i :| 0 <= i < |s| && Ips(s)[i] == x;
        assert s[i] in t;
        var j :| 0 <= j < |t| && t[j] == s[i];
        assert Ips(t)[j] == x;
      }
      if x in Ips(t) {
        var i :| 0 <= i < |t| && Ips(t)[i] == x;
        assert t[i] in s;
        var j :| 0 <= j < |s| && s[j] == t[i];
        assert Ips(s)[j] == x;
      }
      if x in DeviceIds(s) {
        var i :| 0 <= i < |s| && DeviceIds(s)[i] == x;
        assert s[i] in t;
        var j :| 0 <= j < |t| && t[j] == s[i];
        assert DeviceIds(t)[j] == x;
      }
      if x in DeviceIds(t) {
        var i :| 0 <= i < |t| && DeviceIds(t)[i] == x;
        assert t[i] in s;
        var j :| 0 <= j < |s| && s[j] == t[i];
        assert DeviceIds(s)[j] == x;
      }
    }
  }

  /** `active_users` and `last_activity`: the count and time of the last record, or `(0, "-")`. */
  function LastActivity(s: seq<LogEntry>): (U32, string)
  {
    if s == [] then (0, "-") else (s[|s| - 1].count, s[|s| - 1].timestamp)
  }

  // ------------------------------------------------------------------
  // Pagination

  /** `usize::MAX` on a 64-bit target: what `f64::INFINITY as usize` saturates to. */
  const USIZE_MAX: nat := 0xFFFF_FFFF_FFFF_FFFF

  /**
   * `(total as f64 / page_size as f64).ceil() as usize`. A zero page size
   * divides by zero: 0/0 is NaN, which casts to 0; n/0 is +infinity, which
   * casts to `usize::MAX`.
   */
  function TotalPages(total: nat, pageSize: nat): nat
  {
    if pageSize == 0 then (if total == 0 then 0 else USIZE_MAX)
    else (total + pageSize - 1) / pageSize
  }

  /** `TotalPages` is the ceiling of `total / pageSize`: the fewest pages that hold every record. */
  lemma TotalPagesCeiling(total: nat, pageSize: nat)
    requires pageSize > 0
    ensures TotalPages(total, pageSize) * pageSize >= total
    ensures TotalPages(total, pageSize) == 0 || (TotalPages(total, pageSize) - 1) * pageSize < total
  {
    var r := TotalPages(total, pageSize);
    var m := (total + pageSize - 1) % pageSize;
    assert r * pageSize + m == total + pageSize - 1;
    if r > 0 {
      assert (r - 1) * pageSize == r * pageSize - pageSize;
    }
  }

  /** `page.saturating_sub(1) * page_size`. */
  function PageStart(page: nat, pageSize: nat): nat
  {
    (if page == 0 then 0 else page - 1) * pageSize
  }

  /** `skip(start).take(page_size)` when `start < total`, otherwise nothing. */
  function Paginate(s: seq<LogEntry>, page: nat, pageSize: nat): (r: seq<LogEntry>)
    ensures |r| <= pageSize
  {
    var start := PageStart(page, pageSize);
    if start < |s| then
      s[start..if start + pageSize <= |s| then start + pageSize else |s|]
    else []
  }

  /**
   * A page is the run of records from its start, as long as the page size
   * allows and the records last; it is empty once the start is past the end.
   */
  lemma PageIsSlice(s: seq<LogEntry>, page: nat, pageSize: nat)
    ensures var start := PageStart(page, pageSize);
            var r := Paginate(s, page, pageSize);
            (start >= |s| ==> r == [])
            && (start < |s| ==>
                  start + |r| <= |s| && r == s[start..start + |r|]
                  && (|r| == pageSize || start + |r| == |s|))
  {
  }

  /** With a page size, record `i` is at position `i % pageSize` of page `i / pageSize + 1`. */
  lemma PagePlacement(s: seq<LogEntry>, pageSize: nat, i: nat)
    requires pageSize > 0 && i < |s|
    ensures var r := Paginate(s, i / pageSize + 1, pageSize);
            i % pageSize < |r| && r[i % pageSize] == s[i]
  {
    var start := PageStart(i / pageSize + 1, pageSize);
    assert start == (i / pageSize) * pageSize;
    assert start + i % pageSize == i;
  }

  /** Page numbers past `total_pages` hold nothing; 1..total_pages each hold something. */
  lemma PagesInRange(s: seq<LogEntry>, pageSize: nat, page: nat)
    requires pageSize > 0
    ensures Paginate(s, page, pageSize) != [] <==> 1 <= page <= TotalPages(|s|, pageSize) || (page == 0 && s != [])
  {
    TotalPagesCeiling(|s|, pageSize);
    var n := TotalPages(|s|, pageSize);
    if page > n {
      MulMonotonic(n, page - 1, pageSize);
    } else if page >= 1 {
      MulMonotonic(page - 1, n - 1, pageSize);
    }
  }

  lemma MulMonotonic(a: nat, b: nat, c: nat)
    requires a <= b
    ensures a * c <= b * c
  {
  }

  /** The metadata of a page: echoes the request and counts the pages. */
  function Metadata(total: nat, p: LogQuery): (m: LogMetadata)
    ensures m.total == total && m.page == p.page && m.pageSize == p.pageSize
    ensures p.pageSize > 0 ==> m.totalPages * p.pageSize >= total
  {
    TotalPagesCeiling(total, if p.pageSize == 0 then 1 else p.pageSize);
    LogMetadata(total, p.page, p.pageSize, TotalPages(total, p.pageSize))
  }
}
