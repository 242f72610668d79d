/**
 * The few `java.lang.String` and Guava string operations the table source relies on,
 * each characterised by what it computes rather than how.
 */
module JavaStrings {
  import opened Wrappers

  /** Guava `Strings.isNullOrEmpty`. */
  predicate IsNullOrEmpty(s: Option<string>) {
    s.None? || s.value == ""
  }

  /** `s.startsWith(p)`. */
  predicate StartsWith(s: string, p: string) {
    |p| <= |s| && s[..|p|] == p
  }

  /** `s.endsWith(p)`. */
  predicate EndsWith(s: string, p: string) {
    |p| <= |s| && s[|s| - |p|..] == p
  }

  /** `p` occurs in `s` starting at index `i`. */
  predicate OccursAt(s: string, p: string, i: int) {
    0 <= i && i + |p| <= |s| && s[i..i + |p|] == p
  }

  /** `s.contains(p)`. */
  predicate Contains(s: string, p: string) {
    exists i :: 0 <= i <= |s| && OccursAt(s, p, i)
  }

  /**
   * `s.replace(target, "")`: a left-to-right scan that drops every non-overlapping
   * occurrence of `target`; the text left behind is not scanned again.
   */
  function RemoveAll(s: string, target: string): (r: string)
    requires target != ""
    ensures |r| <= |s|
    decreases |s|
  {
    if |s| < |target| then s
    else if s[..|target|] == target then RemoveAll(s[|target|..], target)
    else [s[0]] + RemoveAll(s[1..], target)
  }

  /** Removal leaves a string unchanged exactly when the target does not occur in it. */
  lemma {:induction false} RemoveAllIdentity(s: string, target: string)
    requires target != ""
    ensures RemoveAll(s, target) == s <==> !Contains(s, target)
  {
    if Contains(s, target) {
      RemoveAllShrinks(s, target);
    } else {
      RemoveAllAbsent(s, target);
    }
  }

  lemma {:induction false} RemoveAllAbsent(s: string, target: string)
    requires target != ""
    requires !Contains(s, target)
    ensures RemoveAll(s, target) == s
    decreases |s|
  {
    if |s| >= |target| {
      assert !OccursAt(s, target, 0);
      forall i | OccursAt(s[1..], target, i) ensures false {
        assert s[1..][i..i + |target|] == s[i + 1..i + 1 + |target|];
        assert OccursAt(s, target, i + 1);
      }
      RemoveAllAbsent(s[1..], target);
      assert [s[0]] + s[1..] == s;
    }
  }

  /** Each removed occurrence shortens the string by the target's length. */
  lemma {:induction false} RemoveAllShrinks(s: string, target: string)
    requires target != ""
    requires Contains(s, target)
    ensures |RemoveAll(s, target)| + |target| <= |s|
    decreases |s|
  {
    var i :| 0 <= i <= |s| && OccursAt(s, target, i);
    assert 0 <= i && i + |target| <= |s|;
    if s[..|target|] != target {
      assert i != 0;
      var t := s[1..];
      assert t[i - 1..i - 1 + |target|] == s[i..i + |target|];
      assert OccursAt(t, target, i - 1);
      RemoveAllShrinks(s[1..], target);
    }
  }

  /** A target with a character that `s` lacks does not occur in `s`. */
  lemma MissingChar(s: string, target: string, k: int)
    requires 0 <= k < |target| && target[k] !in s
    ensures !Contains(s, target)
  {
  }

  /** `s.indexOf(c)`: the first index of `c`, or -1. */
  function IndexOf(s: string, c: char): (r: int)
    ensures -1 <= r < |s|
    ensures r >= 0 ==> s[r] == c
    ensures forall j :: 0 <= j < |s| && (r < 0 || j < r) ==> s[j] != c
    decreases |s|
  {
    if |s| == 0 then -1
    else if s[0] == c then 0
    else var k := IndexOf(s[1..], c); if k < 0 then -1 else k + 1
  }

  /** `s.lastIndexOf(c)`: the last index of `c`, or -1. */
  function LastIndexOf(s: string, c: char): (r: int)
    ensures -1 <= r < |s|
    ensures r >= 0 ==> s[r] == c
    ensures forall j :: r < j < |s| ==> s[j] != c
    decreases |s|
  {
    if |s| == 0 then -1
    else if s[|s| - 1] == c then |s| - 1
    else LastIndexOf(s[..|s| - 1], c)
  }

  /** The text of `s` before the first `c` (all of `s` when there is none). */
  function UpTo(s: string, c: char): (r: string)
    ensures c !in r && StartsWith(s, r)
    ensures r == s || (|r| < |s| && s[|r|] == c)
  {
    var i := IndexOf(s, c);
    if i < 0 then s else s[..i]
  }

  /** The text before the first `c` of `a + c + b`, when `a` holds none, is `a`. */
  lemma UpToBefore(a: string, c: char, b: string)
    requires c !in a
    ensures UpTo(a + [c] + b, c) == a
  {
    var s := a + [c] + b;
    assert s[|a|] == c;
    assert forall j :: 0 <= j < |a| ==> s[j] == a[j];
    assert s[..|a|] == a;
  }

  /** Guava `Splitter.on(c).splitToList(s)`: every separator splits, empty pieces are kept. */
  function Split(s: string, c: char): (r: seq<string>)
    ensures |r| >= 1 && r[0] == UpTo(s, c)
    ensures forall k :: 0 <= k < |r| ==> c !in r[k]
    decreases |s|
  {
    var i := IndexOf(s, c);
    if i < 0 then [s] else [s[..i]] + Split(s[i + 1..], c)
  }

  /** The inverse of `Split`: the pieces glued back together with `c` between them. */
  function Join(parts: seq<string>, c: char): string
    requires |parts| >= 1
  {
    if |parts| == 1 then parts[0] else parts[0] + [c] + Join(parts[1..], c)
  }

  lemma {:induction false} JoinSplit(s: string, c: char)
    ensures Join(Split(s, c), c) == s
    decreases |s|
  {
    var i := IndexOf(s, c);
    if i < 0 {
      assert Split(s, c) == [s];
    } else {
      var rest := s[i + 1..];
      var tail := Split(rest, c);
      assert Split(s, c) == [s[..i]] + tail;
      JoinSplit(rest, c);
      JoinCons(s[..i], tail, c);
      Around(s, i);
    }
  }

  lemma Around(s: string, i: int)
    requires 0 <= i < |s|
    ensures s == s[..i] + [s[i]] + s[i + 1..]
  {
  }

  lemma JoinCons(head: string, tail: seq<string>, c: char)
    requires |tail| >= 1
    ensures Join([head] + tail, c) == head + [c] + Join(tail, c)
  {
    assert ([head] + tail)[1..] == tail;
  }

  lemma {:induction false} SplitJoin(parts: seq<string>, c: char)
    requires |parts| >= 1
    requires forall k :: 0 <= k < |parts| ==> c !in parts[k]
    ensures Split(Join(parts, c), c) == parts
  {
    if |parts| > 1 {
      var s := Join(parts, c);
      var rest := Join(parts[1..], c);
      assert s == parts[0] + ([c] + rest);
      SplitAfter(parts[0], rest, c);
      SplitJoin(parts[1..], c);
      assert [parts[0]] + parts[1..] == parts;
    }
  }

  /** Splitting `a + c + b`, where `a` holds no separator, peels `a` off the front. */
  lemma SplitAfter(a: string, b: string, c: char)
    requires c !in a
    ensures Split(a + ([c] + b), c) == [a] + Split(b, c)
  {
    var s := a + ([c] + b);
    assert s[|a|] == c;
    assert forall j :: 0 <= j < |a| ==> s[j] == a[j];
    assert IndexOf(s, c) == |a|;
    assert s[..|a|] == a && s[|a| + 1..] == b;
  }

  /** ASCII `Character.toLowerCase`. */
  function LowerChar(ch: char): char {
    if 'A' <= ch <= 'Z' then (ch as int - 'A' as int + 'a' as int) as char else ch
  }

  /** `s.toLowerCase()`, on ASCII letters. */
  function ToLower(s: string): (r: string)
    ensures |r| == |s| && forall i :: 0 <= i < |s| ==> r[i] == LowerChar(s[i])
  {
    seq(|s|, i requires 0 <= i < |s| => LowerChar(s[i]))
  }
}
