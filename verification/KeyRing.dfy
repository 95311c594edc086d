/** The online key ring as a recency list: the previous keys, oldest first, then the current key. */
module KeyRing {
  import opened Basics

  datatype Key = Key(keyId: Bytes, publicKey: Bytes, issuedAt: int, refreshAfter: int)

  const RING_SIZE := 5

  predicate Distinct(keys: seq<Key>) {
    forall i, j :: 0 <= i < j < |keys| ==> keys[i].keyId != keys[j].keyId
  }

  predicate Holds(keys: seq<Key>, keyId: Bytes) {
    exists i :: 0 <= i < |keys| && keys[i].keyId == keyId
  }

  function Without(keys: seq<Key>, keyId: Bytes): (r: seq<Key>)
    ensures |r| <= |keys|
    ensures forall k :: k in r ==> k in keys && k.keyId != keyId
    ensures forall k :: k in keys && k.keyId != keyId ==> k in r
  {
    if keys == [] then []
    else
      var rest := Without(keys[1..], keyId);
      if keys[0].keyId == keyId then rest else [keys[0]] + rest
  }

  function LastFive(keys: seq<Key>): seq<Key> {
    if |keys| <= RING_SIZE then keys else keys[|keys| - RING_SIZE..]
  }

  /** An id already held must keep its key material. */
  predicate Rebinds(keys: seq<Key>, next: Key) {
    exists i :: 0 <= i < |keys| && keys[i].keyId == next.keyId && keys[i].publicKey != next.publicKey
  }

  function Installed(keys: seq<Key>, next: Key): seq<Key> {
    LastFive(Without(keys, next.keyId) + [next])
  }

  function Step(keys: seq<Key>, next: Key): seq<Key> {
    if Rebinds(keys, next) then keys else Installed(keys, next)
  }

  /** The ring after a run of install attempts. */
  function Run(attempts: seq<Key>): seq<Key> {
    if attempts == [] then []
    else Step(Run(attempts[..|attempts| - 1]), attempts[|attempts| - 1])
  }

  /** The attempts that were not refused. */
  function Accepted(attempts: seq<Key>): seq<Key> {
    if attempts == [] then []
    else
      var before, next := attempts[..|attempts| - 1], attempts[|attempts| - 1];
      if Rebinds(Run(before), next) then Accepted(before) else Accepted(before) + [next]
  }

  // ---- the reference: distinct ids by their latest install ----

  /** An install that no later install of the same id replaces. */
  predicate Latest(history: seq<Key>, i: nat) {
    i < |history| && forall j :: i < j < |history| ==> history[j].keyId != history[i].keyId
  }

  /** The latest installs, in the order they were made. */
  function Recency(history: seq<Key>, from: nat): seq<Key>
    requires from <= |history|
    decreases |history| - from
  {
    if from == |history| then []
    else if Latest(history, from) then [history[from]] + Recency(history, from + 1)
    else Recency(history, from + 1)
  }

  lemma {:induction false} WithoutAbsent(keys: seq<Key>, keyId: Bytes)
    requires !Holds(keys, keyId)
    ensures Without(keys, keyId) == keys
  {
    if keys == [] {
    } else {
      hide Without;
      var head, rest := keys[0], keys[1..];
      assert keys == [head] + rest && head.keyId != keyId;
      assert forall i :: 0 <= i < |rest| ==> rest[i] == keys[i + 1];
      WithoutAbsent(rest, keyId);
      WithoutHead(head, rest, keyId);
    }
  }

  lemma {:induction false} WithoutConcat(a: seq<Key>, b: seq<Key>, keyId: Bytes)
    ensures Without(a + b, keyId) == Without(a, keyId) + Without(b, keyId)
  {
    if a == [] {
      assert a + b == b;
    } else {
      assert (a + b)[1..] == a[1..] + b;
      WithoutConcat(a[1..], b, keyId);
    }
  }

  lemma DistinctTail(keys: seq<Key>)
    requires Distinct(keys) && keys != []
    ensures Distinct(keys[1..]) && forall k :: k in keys[1..] ==> k.keyId != keys[0].keyId
  {
  }

  lemma DistinctHead(head: Key, rest: seq<Key>)
    requires Distinct(rest) && forall k :: k in rest ==> k.keyId != head.keyId
    ensures Distinct([head] + rest)
  {
    forall j | 0 <= j < |rest| ensures rest[j].keyId != head.keyId {
      assert rest[j] in rest;
    }
  }

  lemma HoldsIn(keys: seq<Key>, keyId: Bytes)
    ensures Holds(keys, keyId) <==> exists k :: k in keys && k.keyId == keyId
  {
    if k :| k in keys && k.keyId == keyId {
      var i :| 0 <= i < |keys| && keys[i] == k;
      assert keys[i].keyId == keyId;
    }
    if Holds(keys, keyId) {
      var i :| 0 <= i < |keys| && keys[i].keyId == keyId;
      assert keys[i] in keys;
    }
  }

  lemma {:induction false} WithoutDistinct(keys: seq<Key>, keyId: Bytes)
    requires Distinct(keys)
    ensures Distinct(Without(keys, keyId))
    ensures |Without(keys, keyId)| >= |keys| - 1
    ensures !Holds(keys, keyId) ==> Without(keys, keyId) == keys
  {
    hide Distinct, Holds, Without;
    if keys == [] {
      WithoutNone(keyId);
      assert Without(keys, keyId) == keys;
    } else {
      var head, rest := keys[0], keys[1..];
      assert keys == [head] + rest;
      DistinctTail(keys);
      WithoutDistinct(rest, keyId);
      WithoutHead(head, rest, keyId);
      HoldsIn(keys, keyId);
      HoldsIn(rest, keyId);
      if head.keyId == keyId {
        assert head in keys;
      } else {
        DistinctHead(head, Without(rest, keyId));
      }
    }
  }

  /** Appending an install drops the older install of its id and adds the new one last. */
  lemma {:induction false} RecencyAppend(history: seq<Key>, next: Key, from: nat)
    requires from <= |history|
    ensures Recency(history + [next], from) == Without(Recency(history, from), next.keyId) + [next]
    decreases |history| - from
  {
    hide Latest, Without;
    var longer := history + [next];
    if from == |history| {
      LatestLast(history, next);
      assert Recency(longer, from + 1) == [];
      WithoutNone(next.keyId);
    } else {
      RecencyAppend(history, next, from + 1);
      assert longer[from] == history[from];
      LatestAppend(history, next, from);
      var rest := Recency(history, from + 1);
      if Latest(history, from) {
        WithoutHead(history[from], rest, next.keyId);
      }
    }
  }

  lemma LatestLast(history: seq<Key>, next: Key)
    ensures Latest(history + [next], |history|)
  {
  }

  lemma WithoutNone(keyId: Bytes)
    ensures Without([], keyId) == []
  {
  }

  lemma WithoutHead(head: Key, rest: seq<Key>, keyId: Bytes)
    ensures Without([head] + rest, keyId) == if head.keyId == keyId then Without(rest, keyId) else [head] + Without(rest, keyId)
  {
    assert ([head] + rest)[1..] == rest;
  }

  lemma LatestAppend(history: seq<Key>, next: Key, i: nat)
    requires i < |history|
    ensures Latest(history + [next], i) <==> Latest(history, i) && history[i].keyId != next.keyId
  {
    var longer := history + [next];
    assert longer[i] == history[i] && longer[|history|] == next;
    if Latest(longer, i) {
      forall j | i < j < |history| ensures history[j].keyId != history[i].keyId {
        assert longer[j] == history[j];
      }
    }
  }

  lemma {:induction false} RecencyMembers(history: seq<Key>, from: nat)
    requires from <= |history|
    ensures Distinct(Recency(history, from))
    ensures forall k :: k in Recency(history, from) ==> exists i: nat :: from <= i && Latest(history, i) && history[i] == k
    decreases |history| - from
  {
    if from < |history| {
      RecencyMembers(history, from + 1);
      if Latest(history, from) {
        var rest := Recency(history, from + 1);
        forall j | 0 <= j < |rest| ensures rest[j].keyId != history[from].keyId {
          assert rest[j] in rest;
        }
      }
    }
  }

  /** Trimming to five before or after an install comes to the same five. */
  lemma LastFiveInstall(keys: seq<Key>, next: Key)
    requires Distinct(keys)
    ensures Installed(LastFive(keys), next) == Installed(keys, next)
  {
    hide Without, Distinct;
    if |keys| > RING_SIZE {
      DistinctSlice(keys, |keys| - RING_SIZE);
      var n := |keys| - RING_SIZE;
      var gone, kept := keys[..n], keys[n..];
      assert keys == gone + kept;
      WithoutConcat(gone, kept, next.keyId);
      WithoutDistinct(kept, next.keyId);
      var a, b := Without(gone, next.keyId), Without(kept, next.keyId);
      assert (a + b) + [next] == a + (b + [next]);
      LastFiveSuffix(a, b + [next]);
    }
  }

  lemma DistinctSlice(keys: seq<Key>, n: nat)
    requires Distinct(keys) && n <= |keys|
    ensures Distinct(keys[n..])
  {
  }

  lemma LastFiveSuffix(a: seq<Key>, b: seq<Key>)
    requires |b| >= RING_SIZE
    ensures LastFive(a + b) == LastFive(b)
  {
  }

  /** After any attempts, the ring holds exactly the five most recently installed distinct ids of the
      accepted history, oldest first, each with its latest material. */
  lemma RunIsRecency(attempts: seq<Key>)
    ensures var recent := Recency(Accepted(attempts), 0);
            Run(attempts) == if |recent| <= 5 then recent else recent[|recent| - 5..]
  {
    hide Run, Recency, Accepted;
    RunIsLastFive(attempts);
  }

  lemma {:induction false} RunIsLastFive(attempts: seq<Key>)
    ensures Run(attempts) == LastFive(Recency(Accepted(attempts), 0))
  {
    if attempts == [] {
    } else {
      var before, next := attempts[..|attempts| - 1], attempts[|attempts| - 1];
      RunIsLastFive(before);
      if !Rebinds(Run(before), next) {
        var recent := Recency(Accepted(before), 0);
        RecencyMembers(Accepted(before), 0);
        LastFiveInstall(recent, next);
        RecencyAppend(Accepted(before), next, 0);
      }
    }
  }

  /** Every key in the ring is the latest accepted install of its id, and no id stands twice. */
  lemma RingHoldsLatest(attempts: seq<Key>, k: Key)
    requires k in Run(attempts)
    ensures Distinct(Run(attempts)) && |Run(attempts)| <= 5
    ensures exists i: nat :: Latest(Accepted(attempts), i) && Accepted(attempts)[i] == k
  {
    RunIsRecency(attempts);
    RecencyMembers(Accepted(attempts), 0);
    assert k in Recency(Accepted(attempts), 0);
  }

  /** No attempt, accepted or refused, changes the material of an id that stays in the ring. */
  lemma NeverRebound(keys: seq<Key>, next: Key, a: Key, b: Key)
    requires a in keys && b in Step(keys, next) && a.keyId == b.keyId && Distinct(keys)
    ensures a.publicKey == b.publicKey
  {
    hide Without;
    var i :| 0 <= i < |keys| && keys[i] == a;
    if !Rebinds(keys, next) {
      assert b in Without(keys, next.keyId) + [next];
      if b == next {
        assert !(keys[i].keyId == next.keyId && keys[i].publicKey != next.publicKey);
      } else {
        assert b in Without(keys, next.keyId);
        SameId(keys, a, b);
      }
    } else {
      SameId(keys, a, b);
    }
  }

  lemma SameId(keys: seq<Key>, a: Key, b: Key)
    requires Distinct(keys) && a in keys && b in keys && a.keyId == b.keyId
    ensures a == b
  {
    var i :| 0 <= i < |keys| && keys[i] == a;
    var j :| 0 <= j < |keys| && keys[j] == b;
  }
}
