/**
  Project names, segment by segment: what the name checks accept is said of the parts between
  slashes, each on its own.
 */
module NameRules {
  import opened Strings
  import opened ProjectStore
  import opened ProjectOps

  /** Opens with a lower-case letter or a digit and goes on with those, dots, underscores and dashes. */
  predicate IsSegment(seg: string) {
    && seg != "" && ('a' <= seg[0] <= 'z' || '0' <= seg[0] <= '9')
    && forall i :: 0 <= i < |seg| ==>
          'a' <= seg[i] <= 'z' || '0' <= seg[i] <= '9' || seg[i] == '.' || seg[i] == '_' || seg[i] == '-'
  }

  /** What the checks ask of the characters of a whole name. */
  predicate WellSpelled(n: string) {
    && n != "" && NameStart(n[0])
    && (forall i :: 0 <= i < |n| ==> n[i] == '/' || NameChar(n[i]))
    && (forall i :: 0 <= i < |n| && n[i] == '/' ==> i + 1 < |n| && NameStart(n[i + 1]))
  }

  lemma SegmentSpelled(seg: string)
    requires '/' !in seg
    ensures IsSegment(seg) <==> WellSpelled(seg)
  {
    if IsSegment(seg) {
      assert forall i :: 0 <= i < |seg| ==> seg[i] != '/';
    }
  }

  lemma SpelledParts(head: string, rest: string)
    requires '/' !in head
    ensures WellSpelled(head + "/" + rest) <==> WellSpelled(head) && WellSpelled(rest)
  {
    if WellSpelled(head + "/" + rest) {
      SpelledApart(head, rest);
    }
    if WellSpelled(head) && WellSpelled(rest) {
      SpelledTogether(head, rest);
    }
  }

  lemma SpelledApart(head: string, rest: string)
    requires '/' !in head && WellSpelled(head + "/" + rest)
    ensures WellSpelled(head) && WellSpelled(rest)
  {
    var n, k := head + "/" + rest, |head|;
    assert n[k] == '/' && k + 1 < |n| && NameStart(n[k + 1]);
    assert n[0] == if k > 0 then head[0] else '/';
    assert n[k + 1] == rest[0];
    forall i | 0 <= i < k
      ensures NameChar(head[i]) && head[i] != '/'
    {
      assert n[i] == head[i];
    }
    forall i | 0 <= i < |rest|
      ensures rest[i] == '/' || NameChar(rest[i])
    {
      assert n[k + 1 + i] == rest[i];
    }
    forall i | 0 <= i < |rest| && rest[i] == '/'
      ensures i + 1 < |rest| && NameStart(rest[i + 1])
    {
      assert n[k + 1 + i] == '/';
      assert i + 1 < |rest| ==> n[k + 1 + i + 1] == rest[i + 1];
    }
  }

  lemma SpelledTogether(head: string, rest: string)
    requires '/' !in head && WellSpelled(head) && WellSpelled(rest)
    ensures WellSpelled(head + "/" + rest)
  {
    var n, k := head + "/" + rest, |head|;
    forall i | 0 <= i < |n|
      ensures n[i] == '/' || NameChar(n[i])
      ensures n[i] == '/' ==> i + 1 < |n| && NameStart(n[i + 1])
    {
      if i > k {
        assert n[i] == rest[i - k - 1];
      } else if i < k {
        assert n[i] == head[i];
      }
    }
  }

  /** A name is spelled well exactly when each part between slashes is a segment. */
  lemma {:induction false} SegmentsIff(n: string)
    ensures WellSpelled(n) <==> forall seg :: seg in SplitOn(n, '/') ==> IsSegment(seg)
    decreases |n|
  {
    var i := IndexOf(n, '/');
    if i == |n| {
      assert n[..i] == n;
      SegmentSpelled(n);
    } else {
      var head, rest := n[..i], n[i + 1..];
      assert n == head + "/" + rest;
      SegmentsIff(rest);
      SpelledParts(head, rest);
      SegmentSpelled(head);
      assert SplitOn(n, '/') == [head] + SplitOn(rest, '/');
    }
  }

  lemma SlashWithin(n: string, i: nat, k: nat)
    requires i <= k < i + 129 && k < |n| && n[k] == '/'
    ensures !LongFrom(n, i)
  {
    if i + 129 <= |n| {
      assert n[i..i + 129][k - i] == '/';
    }
  }

  lemma LongShift(front: string, rest: string, i: nat)
    ensures LongFrom(front + rest, |front| + i) <==> LongFrom(rest, i)
  {
    if i + 129 <= |rest| {
      assert (front + rest)[|front| + i..|front| + i + 129] == rest[i..i + 129];
    }
  }

  lemma LongAtStart(head: string, rest: string)
    requires '/' !in head && |head| > 128
    ensures LongFrom(head + "/" + rest, 0)
  {
    assert (head + "/" + rest)[0..0 + 129] == head[..129];
  }

  /** A run of 129 characters without a slash lies in one segment. */
  lemma LongParts(head: string, rest: string)
    requires '/' !in head
    ensures (exists i :: 0 <= i < |head + "/" + rest| && LongFrom(head + "/" + rest, i)) <==>
            |head| > 128 || exists i :: 0 <= i < |rest| && LongFrom(rest, i)
  {
    var n, k := head + "/" + rest, |head|;
    assert n == (head + "/") + rest;
    if i :| 0 <= i < |n| && LongFrom(n, i) {
      if i > k {
        LongShift(head + "/", rest, i - k - 1);
      } else if i + 129 > k {
        SlashWithin(n, i, k);
      }
    }
    if |head| > 128 {
      LongAtStart(head, rest);
    }
    if i :| 0 <= i < |rest| && LongFrom(rest, i) {
      LongShift(head + "/", rest, i);
    }
  }

  lemma {:induction false} LongIff(n: string)
    ensures (exists i :: 0 <= i < |n| && LongFrom(n, i)) <==> exists seg :: seg in SplitOn(n, '/') && |seg| > 128
    decreases |n|
  {
    var k := IndexOf(n, '/');
    if k == |n| {
      assert n[..k] == n && SplitOn(n, '/') == [n];
      if |n| > 128 {
        assert LongFrom(n, 0);
      }
    } else {
      var head, rest := n[..k], n[k + 1..];
      assert n == head + "/" + rest;
      LongIff(rest);
      LongParts(head, rest);
      assert SplitOn(n, '/') == [head] + SplitOn(rest, '/');
    }
  }

  /** A declared dependency or a created project: at most 255 characters, each part a segment. */
  lemma ValidProjectNameIff(n: string)
    ensures ValidProjectName(n) <==> |n| <= 255 && forall seg :: seg in SplitOn(n, '/') ==> IsSegment(seg)
  {
    SegmentsIff(n);
  }

  /** A provisioned name: each part a segment of at most 128 characters, the first not the mirror's. */
  lemma ValidNamespacedNameIff(n: string)
    ensures ValidNamespacedName(n) <==>
            && SplitOn(n, '/')[0] != "dockerhub" && SplitOn(n, '/')[0] != "ghcr"
            && forall seg :: seg in SplitOn(n, '/') ==> IsSegment(seg) && |seg| <= 128
  {
    SegmentsIff(n);
    LongIff(n);
    var i := IndexOf(n, '/');
    assert SplitOn(n, '/')[0] == n[..i];
  }
}
