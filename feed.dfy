/**
 * The recency digest of `getRedditRssFeed`: keep the feed entries
 * published at or after a cutoff, take their titles and join them with
 * newlines.  The model starts from the already-parsed entries; the
 * cutoff ("now minus twelve hours") is a parameter.
 */
module Feed {
  import opened Strings

  /**
   * One parsed feed entry.  `published` is the entry's date as a
   * timestamp, or None when the date does not parse (an invalid `Date`
   * compares false with everything).
   */
  datatype Entry = Entry(title: string, published: Option<int>)

  /** `new Date(entry.published) >= twelveHoursAgo`: the boundary is inclusive. */
  predicate IsRecent(e: Entry, cutoff: int)
  {
    e.published.Some? && e.published.value >= cutoff
  }

  /** The `.filter` step: the recent entries, in feed order. */
  function FilterRecent(entries: seq<Entry>, cutoff: int): (r: seq<Entry>)
    ensures |r| <= |entries|
  {
    if entries == [] then []
    else (if IsRecent(entries[0], cutoff) then [entries[0]] else []) + FilterRecent(entries[1..], cutoff)
  }

  /** The filter keeps an entry exactly when it is in the feed and recent. */
  lemma {:induction false} FilterRecentMembers(entries: seq<Entry>, cutoff: int)
    ensures forall e :: e in FilterRecent(entries, cutoff) <==> e in entries && IsRecent(e, cutoff)
  {
    if entries != [] {
      assert entries == [entries[0]] + entries[1..];
      FilterRecentMembers(entries[1..], cutoff);
    }
  }

  /** The `.map(entry => entry.title)` step. */
  function Titles(es: seq<Entry>): (r: seq<string>)
    ensures |r| == |es|
  {
    seq(|es|, i requires 0 <= i < |es| => es[i].title)
  }

  /** `Array.prototype.join(sep)`: "" for no parts, the parts separated by `sep` otherwise. */
  function Join(parts: seq<string>, sep: string): (r: string)
  {
    if parts == [] then []
    else if |parts| == 1 then parts[0]
    else parts[0] + sep + Join(parts[1..], sep)
  }

  /** The digest `getRedditRssFeed` returns. */
  function RecentDigest(entries: seq<Entry>, cutoff: int): (r: string)
  {
    Join(Titles(FilterRecent(entries, cutoff)), "\n")
  }

  /** Filtering distributes over concatenation: the order of the feed is kept. */
  lemma {:induction false} FilterRecentAppend(a: seq<Entry>, b: seq<Entry>, cutoff: int)
    ensures FilterRecent(a + b, cutoff) == FilterRecent(a, cutoff) + FilterRecent(b, cutoff)
  {
    if a == [] {
      assert a + b == b;
    } else {
      assert (a + b)[0] == a[0];
      assert (a + b)[1..] == a[1..] + b;
      var h := if IsRecent(a[0], cutoff) then [a[0]] else [];
      assert FilterRecent(a, cutoff) == h + FilterRecent(a[1..], cutoff);
      assert FilterRecent(a + b, cutoff) == h + FilterRecent(a[1..] + b, cutoff);
      FilterRecentAppend(a[1..], b, cutoff);
      assert h + (FilterRecent(a[1..], cutoff) + FilterRecent(b, cutoff))
          == (h + FilterRecent(a[1..], cutoff)) + FilterRecent(b, cutoff);
    }
  }

  /** The positions at or after `from` of the recent entries, in increasing order. */
  function RecentPositions(entries: seq<Entry>, cutoff: int, from: nat): (idx: seq<nat>)
    requires from <= |entries|
    ensures forall k :: 0 <= k < |idx| ==> from <= idx[k] < |entries| && IsRecent(entries[idx[k]], cutoff)
    ensures forall k, m :: 0 <= k < m < |idx| ==> idx[k] < idx[m]
    ensures forall i :: from <= i < |entries| && IsRecent(entries[i], cutoff) ==> i in idx
    decreases |entries| - from
  {
    if from == |entries| then []
    else (if IsRecent(entries[from], cutoff) then [from] else []) + RecentPositions(entries, cutoff, from + 1)
  }

  /** One step of the filter on the suffix starting at `from`. */
  lemma {:induction false} FilterSuffixStep(entries: seq<Entry>, cutoff: int, from: nat)
    requires from < |entries|
    ensures FilterRecent(entries[from..], cutoff)
         == (if IsRecent(entries[from], cutoff) then [entries[from]] else []) + FilterRecent(entries[from + 1..], cutoff)
  {
    var t := entries[from..];
    assert t[0] == entries[from];
    assert t[1..] == entries[from + 1..];
  }

  /** Entries picked by positions stay picked by them when one more entry and position go in front. */
  lemma {:induction false} PickedCons(entries: seq<Entry>, from: nat, r: seq<Entry>, idx: seq<nat>)
    requires from < |entries|
    requires |r| == |idx| && forall k :: 0 <= k < |r| ==> idx[k] < |entries| && r[k] == entries[idx[k]]
    ensures var r' := [entries[from]] + r;
            var idx' := [from] + idx;
            |r'| == |idx'| && forall k :: 0 <= k < |r'| ==> r'[k] == entries[idx'[k]]
  {
    var r' := [entries[from]] + r;
    var idx' := [from] + idx;
    forall k | 0 <= k < |r'|
      ensures r'[k] == entries[idx'[k]]
    {
      if k > 0 {
        assert r'[k] == r[k - 1] && idx'[k] == idx[k - 1];
      }
    }
  }

  lemma {:induction false} FilterFromPositions(entries: seq<Entry>, cutoff: int, from: nat)
    requires from <= |entries|
    ensures var idx := RecentPositions(entries, cutoff, from);
            var r := FilterRecent(entries[from..], cutoff);
            |r| == |idx| && forall k :: 0 <= k < |r| ==> r[k] == entries[idx[k]]
    decreases |entries| - from
  {
    if from < |entries| {
      FilterFromPositions(entries, cutoff, from + 1);
      FilterSuffixStep(entries, cutoff, from);
      if IsRecent(entries[from], cutoff) {
        PickedCons(entries, from, FilterRecent(entries[from + 1..], cutoff), RecentPositions(entries, cutoff, from + 1));
      }
    }
  }

  /**
   * The filter keeps exactly the entries at the recent positions, each
   * once and in feed order.
   */
  lemma {:induction false} FilterKeepsRecentInOrder(entries: seq<Entry>, cutoff: int)
    ensures var idx := RecentPositions(entries, cutoff, 0);
            var r := FilterRecent(entries, cutoff);
            |r| == |idx| && forall k :: 0 <= k < |r| ==> r[k] == entries[idx[k]]
  {
    FilterFromPositions(entries, cutoff, 0);
    assert entries[0..] == entries;
  }

  /**
   * The digest is the titles of exactly the recent entries, in feed
   * order, joined by newlines.
   */
  lemma {:induction false} DigestIsRecentTitles(entries: seq<Entry>, cutoff: int)
    ensures var idx := RecentPositions(entries, cutoff, 0);
            RecentDigest(entries, cutoff) == Join(seq(|idx|, k requires 0 <= k < |idx| => entries[idx[k]].title), "\n")
  {
    FilterKeepsRecentInOrder(entries, cutoff);
    var idx := RecentPositions(entries, cutoff, 0);
    assert Titles(FilterRecent(entries, cutoff)) == seq(|idx|, k requires 0 <= k < |idx| => entries[idx[k]].title);
  }

  /** When no entry is recent the digest is the empty string. */
  lemma {:induction false} DigestEmptyWhenNoneRecent(entries: seq<Entry>, cutoff: int)
    requires forall i :: 0 <= i < |entries| ==> !IsRecent(entries[i], cutoff)
    ensures RecentDigest(entries, cutoff) == ""
  {
    FilterDropsAllStale(entries, cutoff);
  }

  lemma {:induction false} FilterDropsAllStale(entries: seq<Entry>, cutoff: int)
    requires forall i :: 0 <= i < |entries| ==> !IsRecent(entries[i], cutoff)
    ensures FilterRecent(entries, cutoff) == []
  {
    if entries != [] {
      FilterDropsAllStale(entries[1..], cutoff);
    }
  }

  /** When every entry is recent the filter keeps them all. */
  lemma {:induction false} FilterKeepsAllRecent(entries: seq<Entry>, cutoff: int)
    requires forall i :: 0 <= i < |entries| ==> IsRecent(entries[i], cutoff)
    ensures FilterRecent(entries, cutoff) == entries
  {
    if entries != [] {
      FilterKeepsAllRecent(entries[1..], cutoff);
    }
  }

  /** `String.prototype.split("\n")`: the pieces between newlines; at least one. */
  function SplitLines(s: string): (r: seq<string>)
    ensures |r| >= 1
    ensures forall k :: 0 <= k < |r| ==> '\n' !in r[k]
  {
    if s == [] then [[]]
    else
      var rest := SplitLines(s[1..]);
      if s[0] == '\n' then [[]] + rest
      else [[s[0]] + rest[0]] + rest[1..]
  }

  lemma {:induction false} SplitLinesAppend(a: string, b: string)
    requires '\n' !in a
    ensures SplitLines(a + b) == [a + SplitLines(b)[0]] + SplitLines(b)[1..]
  {
    if a == [] {
      assert a + b == b;
      assert a + SplitLines(b)[0] == SplitLines(b)[0];
      assert SplitLines(b) == [SplitLines(b)[0]] + SplitLines(b)[1..];
    } else {
      assert (a + b)[0] == a[0];
      assert (a + b)[1..] == a[1..] + b;
      SplitLinesAppend(a[1..], b);
      assert [a[0]] + (a[1..] + SplitLines(b)[0]) == a + SplitLines(b)[0];
    }
  }

  /**
   * Splitting a digest at newlines gives back the titles, provided there
   * is at least one and none contains a newline.
   */
  lemma {:induction false} SplitJoin(parts: seq<string>)
    requires parts != []
    requires forall k :: 0 <= k < |parts| ==> '\n' !in parts[k]
    ensures SplitLines(Join(parts, "\n")) == parts
  {
    if |parts| == 1 {
      SplitLinesAppend(parts[0], []);
      assert parts[0] + [] == parts[0];
      assert SplitLines([]) == [[]];
    } else {
      SplitJoin(parts[1..]);
      var tail := Join(parts[1..], "\n");
      assert Join(parts, "\n") == parts[0] + ("\n" + tail);
      SplitLinesAppend(parts[0], "\n" + tail);
      assert ("\n" + tail)[0] == '\n';
      assert ("\n" + tail)[1..] == tail;
      assert SplitLines("\n" + tail) == [[]] + parts[1..];
      assert parts[0] + [] == parts[0];
      assert parts == [parts[0]] + parts[1..];
    }
  }

  /** A title published exactly at the cutoff is kept; one a moment earlier, or undated, is dropped. */
  lemma {:induction false} DigestBoundary(a: string, b: string, c: string, cutoff: int)
    ensures RecentDigest([Entry(a, Some(cutoff)), Entry(b, Some(cutoff - 1)), Entry(c, None)], cutoff) == a
  {
    var es := [Entry(a, Some(cutoff)), Entry(b, Some(cutoff - 1)), Entry(c, None)];
    assert es[1..][1..][1..] == [];
    assert FilterRecent(es[1..][1..], cutoff) == [];
    assert FilterRecent(es[1..], cutoff) == [];
    assert FilterRecent(es, cutoff) == [Entry(a, Some(cutoff))];
    assert Titles([Entry(a, Some(cutoff))]) == [a];
  }
}
