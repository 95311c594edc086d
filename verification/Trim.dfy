/** trim_ascii: control bytes, spaces and DEL fall away at both ends. */
module Trim {
  import opened Basics

  predicate IsSpace(b: Byte) {
    b <= 0x20 || b == 0x7f
  }

  predicate AllSpace(s: Bytes) {
    forall i :: 0 <= i < |s| ==> IsSpace(s[i])
  }

  /** Nothing to trim. */
  predicate Tight(s: Bytes) {
    s != [] ==> !IsSpace(s[0]) && !IsSpace(s[|s| - 1])
  }

  function TrimmedLeft(s: Bytes): Bytes {
    if s != [] && IsSpace(s[0]) then TrimmedLeft(s[1..]) else s
  }

  function TrimmedRight(s: Bytes): Bytes {
    if s != [] && IsSpace(s[|s| - 1]) then TrimmedRight(s[..|s| - 1]) else s
  }

  function Trimmed(s: Bytes): Bytes {
    TrimmedRight(TrimmedLeft(s))
  }

  lemma LeftStep(s: Bytes, i: nat)
    requires i <= |s|
    ensures i < |s| && IsSpace(s[i]) ==> TrimmedLeft(s[i..]) == TrimmedLeft(s[i + 1..])
    ensures i == |s| || !IsSpace(s[i]) ==> TrimmedLeft(s[i..]) == s[i..]
  {
    if i < |s| {
      assert s[i..][1..] == s[i + 1..];
    }
  }

  lemma RightStep(s: Bytes, from: nat, i: nat)
    requires from <= i <= |s|
    ensures from < i && IsSpace(s[i - 1]) ==> TrimmedRight(s[from..i]) == TrimmedRight(s[from..i - 1])
    ensures from == i || !IsSpace(s[i - 1]) ==> TrimmedRight(s[from..i]) == s[from..i]
  {
    if from < i {
      assert s[from..i][..i - from - 1] == s[from..i - 1];
    }
  }

  method TrimAscii(value: Bytes) returns (r: Bytes)
    ensures r == Trimmed(value)
  {
    hide TrimmedLeft, TrimmedRight, IsSpace;
    var begin := 0;
    assert value[0..] == value;
    while begin < |value| && IsSpace(value[begin])
      invariant 0 <= begin <= |value|
      invariant TrimmedLeft(value) == TrimmedLeft(value[begin..])
    {
      LeftStep(value, begin);
      begin := begin + 1;
    }
    LeftStep(value, begin);
    var end := |value|;
    assert value[begin..end] == value[begin..];
    while begin < end && IsSpace(value[end - 1])
      invariant begin <= end <= |value|
      invariant Trimmed(value) == TrimmedRight(value[begin..end])
    {
      RightStep(value, begin, end);
      end := end - 1;
    }
    RightStep(value, begin, end);
    return value[begin..end];
  }

  lemma {:induction false} TrimmedLeftPadded(pre: Bytes, s: Bytes)
    requires AllSpace(pre)
    ensures TrimmedLeft(pre + s) == TrimmedLeft(s)
  {
    if pre == [] {
      assert pre + s == s;
    } else {
      TrimmedLeftPadded(pre[1..], s);
      assert (pre + s)[1..] == pre[1..] + s;
    }
  }

  lemma {:induction false} TrimmedRightPadded(s: Bytes, post: Bytes)
    requires AllSpace(post)
    ensures TrimmedRight(s + post) == TrimmedRight(s)
  {
    if post == [] {
      assert s + post == s;
    } else {
      TrimmedRightPadded(s, post[..|post| - 1]);
      assert (s + post)[..|s + post| - 1] == s + post[..|post| - 1];
    }
  }

  lemma {:induction false} TrimmedTail(s: Bytes, post: Bytes)
    requires AllSpace(post)
    ensures Trimmed(s + post) == Trimmed(s)
  {
    if s == [] {
      assert s + post == post + [] && [] + post == post;
      TrimmedLeftPadded(post, []);
    } else if IsSpace(s[0]) {
      assert (s + post)[1..] == s[1..] + post;
      TrimmedTail(s[1..], post);
    } else {
      TrimmedRightPadded(s, post);
    }
  }

  /** Whatever blanks surround it, a text without blanks at its ends is what trimming leaves. */
  lemma TrimmedPadded(pre: Bytes, s: Bytes, post: Bytes)
    requires AllSpace(pre) && AllSpace(post) && Tight(s)
    ensures Trimmed(pre + s + post) == s
  {
    assert pre + s + post == pre + (s + post);
    TrimmedLeftPadded(pre, s + post);
    if s == [] {
      assert s + post == post + [] && post == [] + post;
      TrimmedLeftPadded(post, []);
    } else {
      TrimmedRightPadded(s, post);
    }
  }

  lemma {:induction false} TrimmedIsTight(s: Bytes)
    ensures Tight(Trimmed(s))
    ensures Tight(s) ==> Trimmed(s) == s
    decreases |s|
  {
    if s != [] && IsSpace(s[0]) {
      TrimmedIsTight(s[1..]);
    } else if s != [] && IsSpace(s[|s| - 1]) {
      assert TrimmedLeft(s) == s;
      if |s| > 1 {
        assert TrimmedLeft(s[..|s| - 1]) == s[..|s| - 1];
        TrimmedIsTight(s[..|s| - 1]);
      }
    }
  }

  lemma {:induction false} LeftCut(s: Bytes) returns (pre: Bytes)
    ensures s == pre + TrimmedLeft(s) && AllSpace(pre)
  {
    if s != [] && IsSpace(s[0]) {
      var more := LeftCut(s[1..]);
      pre := [s[0]] + more;
      assert s == [s[0]] + s[1..];
    } else {
      pre := [];
      assert [] + s == s;
    }
  }

  lemma {:induction false} RightCut(s: Bytes) returns (post: Bytes)
    ensures s == TrimmedRight(s) + post && AllSpace(post)
  {
    if s != [] && IsSpace(s[|s| - 1]) {
      var more := RightCut(s[..|s| - 1]);
      post := more + [s[|s| - 1]];
      assert s == s[..|s| - 1] + [s[|s| - 1]];
    } else {
      post := [];
      assert s + [] == s;
    }
  }

  /** What trimming leaves: what stands between bytes up to the space or DEL, and neither starts nor ends
      with one. */
  lemma TrimmedExactly(s: Bytes, r: Bytes)
    ensures Trimmed(s) == r <==>
              && (r != [] ==> r[0] > 0x20 && r[0] != 0x7f && r[|r| - 1] > 0x20 && r[|r| - 1] != 0x7f)
              && exists pre, post :: s == pre + r + post
                                     && (forall i :: 0 <= i < |pre| ==> pre[i] <= 0x20 || pre[i] == 0x7f)
                                     && (forall i :: 0 <= i < |post| ==> post[i] <= 0x20 || post[i] == 0x7f)
  {
    hide TrimmedLeft, TrimmedRight;
    TrimmedIsTight(s);
    var pre := LeftCut(s);
    var post := RightCut(TrimmedLeft(s));
    assert s == pre + Trimmed(s) + post;
    if a, b :| (s == a + r + b && (forall i :: 0 <= i < |a| ==> a[i] <= 0x20 || a[i] == 0x7f)
                && (forall i :: 0 <= i < |b| ==> b[i] <= 0x20 || b[i] == 0x7f)) {
      if Tight(r) {
        TrimmedPadded(a, r, b);
      }
    }
  }
}
