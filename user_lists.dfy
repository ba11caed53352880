/** The new published list that each success callback of the user service
    computes from the current one: append on add, merge on update, filter on
    delete. These are pure functions of the old list and the server's reply. */
module UserLists {
  import opened Records

  /** The id an added record ends up with: the server echo's own `id` if it
      carries one, otherwise the locally computed `n + 1`. */
  function EffectiveId(n: nat, echo: Record): (v: Value)
    ensures v == Spread(map[IdKey := Num(n + 1)], echo)[IdKey]
  {
    if IdKey in echo then echo[IdKey] else Num(n + 1)
  }

  /** `{ id: n + 1, ...echo }`: the echo with a default id in front of it. */
  function Enriched(n: nat, echo: Record): (r: Record)
    ensures r.Keys == echo.Keys + {IdKey}
    ensures forall k :: k in echo ==> r[k] == echo[k]
    ensures r[IdKey] == EffectiveId(n, echo)
  {
    Spread(map[IdKey := Num(n + 1)], echo)
  }

  /** `[...current, { id: current.length + 1, ...echo }]`. */
  function Appended(current: seq<Record>, echo: Record): (r: seq<Record>)
    ensures |r| == |current| + 1
    ensures r[..|current|] == current
    ensures r[|current|].Keys == echo.Keys + {IdKey}
    ensures forall k :: k in echo ==> r[|current|][k] == echo[k]
    ensures IdKey !in echo ==> HasId(r[|current|], |current| + 1)
  {
    current + [Enriched(|current|, echo)]
  }

  /** `current.map(u => u.id === id ? { ...u, ...patch } : u)`. */
  function MergeMatching(current: seq<Record>, id: int, patch: Record): (r: seq<Record>)
    ensures |r| == |current|
    ensures forall i :: 0 <= i < |current| && !HasId(current[i], id) ==> r[i] == current[i]
    ensures forall i :: 0 <= i < |current| && HasId(current[i], id) ==> r[i] == Spread(current[i], patch)
  {
    if current == [] then []
    else
      [if HasId(current[0], id) then Spread(current[0], patch) else current[0]]
        + MergeMatching(current[1..], id, patch)
  }

  /** `current.filter(u => u.id !== id)`. */
  function RemoveMatching(current: seq<Record>, id: int): (r: seq<Record>)
    ensures |r| <= |current|
    ensures forall u :: u in r ==> u in current && !HasId(u, id)
    ensures forall u :: u in current && !HasId(u, id) ==> u in r
  {
    if current == [] then []
    else if !HasId(current[0], id) then [current[0]] + RemoveMatching(current[1..], id)
      else RemoveMatching(current[1..], id)
  }

  /** `a` is `b` with some elements dropped and the rest kept in order. */
  ghost predicate IsSubsequence(a: seq<Record>, b: seq<Record>)
    decreases |b|
  {
    if a == [] then true
    else if b == [] then false
    else if a[0] == b[0] then IsSubsequence(a[1..], b[1..])
    else IsSubsequence(a, b[1..])
  }

  // ---------------------------------------------------------------- update

  /** Merging into an id that no record carries leaves the list as it was. */
  lemma MergeAbsentIsIdentity(s: seq<Record>, id: int, patch: Record)
    requires forall i :: 0 <= i < |s| ==> !HasId(s[i], id)
    ensures MergeMatching(s, id, patch) == s
  {
  }

  /** Applying the same server echo twice is the same as applying it once,
      whether or not the echo rewrote the record's id. */
  lemma MergeIdempotent(s: seq<Record>, id: int, patch: Record)
    ensures MergeMatching(MergeMatching(s, id, patch), id, patch) == MergeMatching(s, id, patch)
  {
    var once := MergeMatching(s, id, patch);
    var twice := MergeMatching(once, id, patch);
    forall i | 0 <= i < |s|
      ensures twice[i] == once[i]
    {
      if HasId(s[i], id) {
        assert Spread(once[i], patch) == once[i];
      }
    }
  }

  /** An update that runs after its record was deleted finds nothing. */
  lemma MergeAfterRemoveIsNoOp(s: seq<Record>, id: int, patch: Record)
    ensures MergeMatching(RemoveMatching(s, id), id, patch) == RemoveMatching(s, id)
  {
  }

  /** An echo that keeps the record's id (or carries none) keeps ids unique. */
  lemma MergeKeepsIdsUnique(s: seq<Record>, id: int, patch: Record)
    requires UniqueIds(s)
    requires IdKey in patch ==> patch[IdKey] == Num(id)
    ensures UniqueIds(MergeMatching(s, id, patch))
  {
  }

  // ---------------------------------------------------------------- delete

  /** Deleting an id that no record carries leaves the list as it was. */
  lemma {:induction false} RemoveAbsentIsIdentity(s: seq<Record>, id: int)
    requires forall i :: 0 <= i < |s| ==> !HasId(s[i], id)
    ensures RemoveMatching(s, id) == s
  {
    if s != [] {
      RemoveAbsentIsIdentity(s[1..], id);
    }
  }

  /** A second delete of the same id changes nothing. */
  lemma RemoveIdempotent(s: seq<Record>, id: int)
    ensures RemoveMatching(RemoveMatching(s, id), id) == RemoveMatching(s, id)
  {
  }

  /** A delete drops every copy of a record carrying the id and keeps every
      copy of the others. */
  lemma {:induction false} RemoveCounts(s: seq<Record>, id: int)
    ensures forall u :: multiset(RemoveMatching(s, id))[u] == if HasId(u, id) then 0 else multiset(s)[u]
  {
    if s != [] {
      RemoveCounts(s[1..], id);
      assert s == [s[0]] + s[1..];
      assert multiset(s) == multiset{s[0]} + multiset(s[1..]);
    }
  }

  /** The records that survive a delete keep their relative order. */
  lemma {:induction false} RemoveIsSubsequence(s: seq<Record>, id: int)
    ensures IsSubsequence(RemoveMatching(s, id), s)
  {
    if s != [] {
      var r := RemoveMatching(s, id);
      RemoveIsSubsequence(s[1..], id);
      if HasId(s[0], id) {
        if r != [] {
          assert r[0] in r;
          assert r[0] != s[0];
        }
      } else {
        assert r[0] == s[0] && r[1..] == RemoveMatching(s[1..], id);
      }
    }
  }

  /** Filtering a concatenation filters each part. */
  lemma {:induction false} RemoveDistributes(a: seq<Record>, b: seq<Record>, id: int)
    ensures RemoveMatching(a + b, id) == RemoveMatching(a, id) + RemoveMatching(b, id)
  {
    if a != [] {
      RemoveDistributes(a[1..], b, id);
      assert (a + b)[0] == a[0] && (a + b)[1..] == a[1..] + b;
      if !HasId(a[0], id) {
        calc {
          RemoveMatching(a + b, id);
          [a[0]] + RemoveMatching(a[1..] + b, id);
          [a[0]] + (RemoveMatching(a[1..], id) + RemoveMatching(b, id));
          ([a[0]] + RemoveMatching(a[1..], id)) + RemoveMatching(b, id);
        }
      } else {
        assert RemoveMatching(a + b, id) == RemoveMatching(a[1..] + b, id);
      }
    } else {
      assert a + b == b;
    }
  }

  /** A delete shrinks the list exactly when some record carries the id. */
  lemma {:induction false} RemoveShrinksIffPresent(s: seq<Record>, id: int)
    ensures |RemoveMatching(s, id)| < |s| <==> exists i :: 0 <= i < |s| && HasId(s[i], id)
  {
    if s != [] {
      RemoveShrinksIffPresent(s[1..], id);
      if exists i :: 0 <= i < |s[1..]| && HasId(s[1..][i], id) {
        var i :| 0 <= i < |s[1..]| && HasId(s[1..][i], id);
        assert HasId(s[i + 1], id);
      }
      if exists i :: 0 <= i < |s| && HasId(s[i], id) {
        var i :| 0 <= i < |s| && HasId(s[i], id);
        if i > 0 {
          assert HasId(s[1..][i - 1], id);
        }
      }
    }
  }

  /** With unique ids, deleting a present id removes exactly one record. */
  lemma RemoveUniqueDropsOne(s: seq<Record>, id: int, i: nat)
    requires UniqueIds(s)
    requires i < |s| && HasId(s[i], id)
    ensures |RemoveMatching(s, id)| == |s| - 1
  {
    assert s == s[..i] + [s[i]] + s[i + 1..];
    RemoveDistributes(s[..i] + [s[i]], s[i + 1..], id);
    RemoveDistributes(s[..i], [s[i]], id);
    forall j | 0 <= j < |s[..i]| ensures !HasId(s[..i][j], id) {
      assert s[..i][j] == s[j];
    }
    var after := s[i + 1..];
    forall j | 0 <= j < |after| ensures !HasId(after[j], id) {
      assert after[j] == s[i + 1 + j];
    }
    RemoveAbsentIsIdentity(s[..i], id);
    RemoveAbsentIsIdentity(after, id);
  }

  /** Deleting never introduces a duplicate id. */
  lemma {:induction false} RemoveKeepsIdsUnique(s: seq<Record>, id: int)
    requires UniqueIds(s)
    ensures UniqueIds(RemoveMatching(s, id))
  {
    if s != [] {
      var t := s[1..];
      assert UniqueIds(t) by {
        forall i, j, n | 0 <= i < |t| && 0 <= j < |t| && HasId(t[i], n) && HasId(t[j], n)
          ensures i == j
        {
          assert t[i] == s[i + 1] && t[j] == s[j + 1];
        }
      }
      RemoveKeepsIdsUnique(t, id);
      var rt := RemoveMatching(t, id);
      if !HasId(s[0], id) {
        var r := RemoveMatching(s, id);
        assert r == [s[0]] + rt;
        forall j, n | 0 <= j < |rt| && HasId(s[0], n) ensures !HasId(rt[j], n) {
          assert rt[j] in rt;
          var k :| 0 <= k < |t| && t[k] == rt[j];
          assert s[k + 1] == t[k];
        }
        forall a, b, n | 0 <= a < |r| && 0 <= b < |r| && HasId(r[a], n) && HasId(r[b], n)
          ensures a == b
        {
          if a > 0 && b > 0 {
            assert r[a] == rt[a - 1] && r[b] == rt[b - 1];
          }
        }
      }
    }
  }

  // ---------------------------------------------------------------- add

  /** Deleting the id an add just assigned undoes the add, provided no older
      record carried that id. */
  lemma AddThenRemoveRestores(s: seq<Record>, echo: Record, id: int)
    requires EffectiveId(|s|, echo) == Num(id)
    requires forall i :: 0 <= i < |s| ==> !HasId(s[i], id)
    ensures RemoveMatching(Appended(s, echo), id) == s
  {
    var added := Enriched(|s|, echo);
    assert Appended(s, echo) == s + [added];
    RemoveDistributes(s, [added], id);
    RemoveAbsentIsIdentity(s, id);
    assert RemoveMatching([added], id) == [];
  }

  /** On a list whose ids are all at most its length, adding an echo without
      an id keeps ids unique. */
  lemma AddKeepsIdsUniqueWhenBounded(s: seq<Record>, echo: Record)
    requires UniqueIds(s)
    requires forall i, n :: 0 <= i < |s| && HasId(s[i], n) ==> n <= |s|
    requires IdKey !in echo
    ensures UniqueIds(Appended(s, echo))
  {
  }

  /** The locally computed id is the list length plus one, so after a delete
      an add can reuse an id that is still present: [{id 1}, {id 2}], delete
      1, add an echo without an id gives two records with id 2. */
  lemma AddAfterRemoveCanDuplicateId()
    ensures !UniqueIds(Appended(RemoveMatching([map[IdKey := Num(1)], map[IdKey := Num(2)]], 1), map[]))
  {
  }
}
