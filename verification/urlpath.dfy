/** The URL path as the post page reads it: `pathname.split('/')` followed by
    `.filter(Boolean)`, which keeps the non-empty segments in order. */
module UrlPath {

  /** JavaScript's `split('/')`: the texts between slashes, always at least
      one, empty ones included. */
  function Split(s: string): (parts: seq<string>)
    ensures |parts| >= 1
    ensures forall i :: 0 <= i < |parts| ==> '/' !in parts[i]
    decreases |s|
  {
    if |s| == 0 then [""]
    else
      var rest := Split(s[1..]);
      if s[0] == '/' then [""] + rest else [[s[0]] + rest[0]] + rest[1..]
  }

  /** `parts.join('/')`. */
  function Join(parts: seq<string>): string
    requires |parts| >= 1
    decreases |parts|
  {
    if |parts| == 1 then parts[0] else parts[0] + "/" + Join(parts[1..])
  }

  /** Joining the split text gives the text back. */
  lemma {:induction false} JoinSplit(s: string)
    ensures Join(Split(s)) == s
    decreases |s|
  {
    if |s| > 0 {
      JoinSplit(s[1..]);
      var rest := Split(s[1..]);
      if s[0] == '/' {
        assert Split(s)[1..] == rest;
      } else if |rest| == 1 {
        assert s == [s[0]] + s[1..];
      } else {
        assert Split(s)[1..] == rest[1..];
        assert s == [s[0]] + s[1..];
      }
    }
  }

  /** A text without slashes splits into itself. */
  lemma {:induction false} SplitNoSlash(a: string)
    requires '/' !in a
    ensures Split(a) == [a]
    decreases |a|
  {
    if |a| > 0 {
      assert '/' !in a[1..];
      SplitNoSlash(a[1..]);
      assert [a[0]] + a[1..] == a;
    }
  }

  /** A slash-free text followed by a slash splits off as one part. */
  lemma {:induction false} SplitAtSlash(a: string, b: string)
    requires '/' !in a
    ensures Split(a + "/" + b) == [a] + Split(b)
    decreases |a|
  {
    if |a| == 0 {
      assert a + "/" + b == "/" + b;
    } else {
      assert (a + "/" + b)[1..] == a[1..] + "/" + b;
      assert '/' !in a[1..];
      SplitAtSlash(a[1..], b);
      assert [a[0]] + a[1..] == a;
    }
  }

  /** Splitting the joined parts gives the parts back, as long as none of
      them holds a slash. */
  lemma {:induction false} SplitJoin(parts: seq<string>)
    requires |parts| >= 1
    requires forall i :: 0 <= i < |parts| ==> '/' !in parts[i]
    ensures Split(Join(parts)) == parts
    decreases |parts|
  {
    if |parts| == 1 {
      SplitNoSlash(parts[0]);
    } else {
      assert '/' !in parts[0];
      SplitJoin(parts[1..]);
      SplitAtSlash(parts[0], Join(parts[1..]));
      assert [parts[0]] + parts[1..] == parts;
    }
  }

  /** `.filter(Boolean)` on strings: the non-empty parts, in order. */
  function NonEmpty(parts: seq<string>): (r: seq<string>)
    ensures |r| <= |parts|
    ensures forall i :: 0 <= i < |r| ==> r[i] != ""
    decreases |parts|
  {
    if |parts| == 0 then []
    else if parts[0] == "" then NonEmpty(parts[1..])
    else [parts[0]] + NonEmpty(parts[1..])
  }

  /** Filtering keeps every non-empty part as often as it occurs, and
      nothing else. */
  lemma {:induction false} NonEmptyCounts(parts: seq<string>)
    ensures forall x :: multiset(NonEmpty(parts))[x] == if x == "" then 0 else multiset(parts)[x]
    decreases |parts|
  {
    if |parts| > 0 {
      NonEmptyCounts(parts[1..]);
      assert parts == [parts[0]] + parts[1..];
    }
  }

  /** Filtering slash-free parts leaves slash-free parts. */
  lemma {:induction false} NonEmptySlashFree(parts: seq<string>)
    requires forall i :: 0 <= i < |parts| ==> '/' !in parts[i]
    ensures forall i :: 0 <= i < |NonEmpty(parts)| ==> '/' !in NonEmpty(parts)[i]
    decreases |parts|
  {
    if |parts| > 0 {
      NonEmptySlashFree(parts[1..]);
    }
  }

  /** Filtering keeps the order: the kept parts of a concatenation are the
      kept parts of each side, one after the other. */
  lemma {:induction false} NonEmptyAppend(a: seq<string>, b: seq<string>)
    ensures NonEmpty(a + b) == NonEmpty(a) + NonEmpty(b)
    decreases |a|
  {
    if |a| == 0 {
      assert a + b == b;
    } else {
      assert (a + b)[1..] == a[1..] + b;
      NonEmptyAppend(a[1..], b);
    }
  }

  /** Every part after position `i` is empty. */
  ghost predicate EmptyAfter(parts: seq<string>, i: nat) {
    forall j :: i < j < |parts| ==> parts[j] == ""
  }

  /** The last kept part is the last non-empty part: every part after it is
      empty. */
  lemma {:induction false} NonEmptyLast(parts: seq<string>)
    requires |NonEmpty(parts)| > 0
    ensures exists i :: 0 <= i < |parts| && parts[i] == NonEmpty(parts)[|NonEmpty(parts)| - 1]
                        && EmptyAfter(parts, i)
    decreases |parts|
  {
    var init, last := parts[..|parts| - 1], parts[|parts| - 1];
    assert parts == init + [last];
    NonEmptyAppend(init, [last]);
    if last != "" {
      assert NonEmpty([last]) == [last];
      LastOfAppend(NonEmpty(init), [last]);
      assert EmptyAfter(parts, |parts| - 1);
    } else {
      assert NonEmpty([last]) == [];
      assert NonEmpty(init) + [] == NonEmpty(init);
      NonEmptyLast(init);
      var i :| 0 <= i < |init| && init[i] == NonEmpty(init)[|NonEmpty(init)| - 1] && EmptyAfter(init, i);
      EmptyAfterExtend(init, i, last);
    }
  }

  lemma LastOfAppend(u: seq<string>, v: seq<string>)
    requires |v| > 0
    ensures (u + v)[|u + v| - 1] == v[|v| - 1]
  {
  }

  lemma EmptyAfterExtend(init: seq<string>, i: nat, last: string)
    requires 0 <= i < |init| && EmptyAfter(init, i) && last == ""
    ensures (init + [last])[i] == init[i] && EmptyAfter(init + [last], i)
  {
  }

  /** The path's non-empty segments, in order. */
  function Segments(path: string): (segs: seq<string>)
    ensures forall i :: 0 <= i < |segs| ==> segs[i] != "" && '/' !in segs[i]
    ensures forall x :: multiset(segs)[x] == if x == "" then 0 else multiset(Split(path))[x]
  {
    NonEmptyCounts(Split(path));
    NonEmptySlashFree(Split(path));
    NonEmpty(Split(path))
  }

  /** The last segment is the last non-empty text between slashes: only
      empty texts (doubled or trailing slashes) follow it. */
  lemma LastSegment(path: string)
    requires |Segments(path)| > 0
    ensures var parts, segs := Split(path), Segments(path);
      exists i :: 0 <= i < |parts| && parts[i] == segs[|segs| - 1] && EmptyAfter(parts, i)
  {
    NonEmptyLast(Split(path));
    assert Segments(path) == NonEmpty(Split(path));
  }

  /** The segments of slash-free parts joined by slashes are the non-empty
      parts: doubled, leading and trailing slashes add no segment. */
  lemma SegmentsOfJoin(parts: seq<string>)
    requires |parts| >= 1
    requires forall i :: 0 <= i < |parts| ==> '/' !in parts[i]
    ensures Segments(Join(parts)) == NonEmpty(parts)
  {
    SplitJoin(parts);
  }
}
