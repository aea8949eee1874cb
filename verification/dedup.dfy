/** Duplicate removal in process_document (backend/server.py): entities are
    kept in order, and an entity is dropped when an earlier one has the same
    text and the same first position. */
module Dedup {
  import opened Entities
  import opened Seqs

  /** The keys of a list of entities. */
  function KeysOf(es: seq<Entity>): (ks: set<Key>)
    requires AllLocated(es)
    ensures forall i :: 0 <= i < |es| ==> KeyOf(es[i]) in ks
    ensures forall k :: k in ks ==> exists i :: 0 <= i < |es| && KeyOf(es[i]) == k
  {
    if es == [] then {} else {KeyOf(es[0])} + KeysOf(es[1..])
  }

  /** The keys of two stretches together are the keys of each. */
  lemma {:induction false} KeysOfAppend(a: seq<Entity>, b: seq<Entity>)
    requires AllLocated(a) && AllLocated(b)
    ensures AllLocated(a + b)
    ensures KeysOf(a + b) == KeysOf(a) + KeysOf(b)
    decreases |a|
  {
    assert AllLocated(a + b) by {
      forall i | 0 <= i < |a + b|
        ensures (a + b)[i].Located()
      {
        if i >= |a| {
          assert (a + b)[i] == b[i - |a|];
        }
      }
    }
    if a == [] {
      assert a + b == b;
    } else {
      assert (a + b)[0] == a[0] && (a + b)[1..] == a[1..] + b;
      KeysOfAppend(a[1..], b);
    }
  }

  /** No two entities share a key. */
  predicate DistinctKeys(es: seq<Entity>)
    requires AllLocated(es)
  {
    forall i, j :: 0 <= i < j < |es| ==> KeyOf(es[i]) != KeyOf(es[j])
  }

  /** The loop of process_document over the entities, with `seen` the keys
      met so far: an entity whose key was seen is skipped, any other is kept
      and its key recorded. */
  function DedupFrom(es: seq<Entity>, seen: set<Key>): (r: seq<Entity>)
    requires AllLocated(es)
    ensures AllLocated(r)
    ensures forall e :: e in r ==> e in es
    decreases |es|
  {
    if es == [] then []
    else if KeyOf(es[0]) in seen then DedupFrom(es[1..], seen)
    else [es[0]] + DedupFrom(es[1..], seen + {KeyOf(es[0])})
  }

  /** The unique entities of a response: the loop run from an empty set.
      Every key of the input survives, and none twice. */
  function Unique(es: seq<Entity>): (r: seq<Entity>)
    requires AllLocated(es)
    ensures AllLocated(r)
    ensures KeysOf(r) == KeysOf(es)
    ensures DistinctKeys(r)
  {
    DedupFromKeys(es, {});
    DedupFrom(es, {})
  }

  /** Exactly the keys not seen before survive, each once. */
  lemma {:induction false} DedupFromKeys(es: seq<Entity>, seen: set<Key>)
    requires AllLocated(es)
    ensures KeysOf(DedupFrom(es, seen)) == KeysOf(es) - seen
    ensures DistinctKeys(DedupFrom(es, seen))
    decreases |es|
  {
    if es != [] {
      var k := KeyOf(es[0]);
      if k in seen {
        DedupFromKeys(es[1..], seen);
      } else {
        DedupFromKeys(es[1..], seen + {k});
        var rest := DedupFrom(es[1..], seen + {k});
        var r := [es[0]] + rest;
        assert r[1..] == rest;
        forall i, j | 0 <= i < j < |r|
          ensures KeyOf(r[i]) != KeyOf(r[j])
        {
          if i == 0 {
            assert r[j] == rest[j - 1];
            assert KeyOf(rest[j - 1]) in KeysOf(rest);
          } else {
            assert r[i] == rest[i - 1] && r[j] == rest[j - 1];
          }
        }
      }
    }
  }

  /** The survivors keep their relative order. */
  lemma {:induction false} DedupFromSubsequence(es: seq<Entity>, seen: set<Key>)
    requires AllLocated(es)
    ensures IsSubsequence(DedupFrom(es, seen), es)
    decreases |es|
  {
    if es != [] {
      var k := KeyOf(es[0]);
      if k in seen {
        DedupFromSubsequence(es[1..], seen);
      } else {
        DedupFromSubsequence(es[1..], seen + {k});
        var r := DedupFrom(es, seen);
        assert r[0] == es[0] && r[1..] == DedupFrom(es[1..], seen + {k});
      }
    }
  }

  /** Running the loop over two stretches in turn, the second starting from
      the keys the first recorded, is running it over both. */
  lemma {:induction false} DedupAppend(a: seq<Entity>, b: seq<Entity>, seen: set<Key>)
    requires AllLocated(a) && AllLocated(b)
    ensures AllLocated(a + b)
    ensures DedupFrom(a + b, seen) == DedupFrom(a, seen) + DedupFrom(b, seen + KeysOf(a))
    decreases |a|
  {
    assert AllLocated(a + b) by {
      forall i | 0 <= i < |a + b|
        ensures (a + b)[i].Located()
      {
        if i >= |a| {
          assert (a + b)[i] == b[i - |a|];
        }
      }
    }
    if a == [] {
      assert a + b == b;
      assert seen + KeysOf(a) == seen;
    } else {
      var k := KeyOf(a[0]);
      assert (a + b)[0] == a[0] && (a + b)[1..] == a[1..] + b;
      assert KeysOf(a) == {k} + KeysOf(a[1..]);
      if k in seen {
        DedupAppend(a[1..], b, seen);
        assert seen + KeysOf(a[1..]) == seen + KeysOf(a);
      } else {
        DedupAppend(a[1..], b, seen + {k});
        assert seen + {k} + KeysOf(a[1..]) == seen + KeysOf(a);
      }
    }
  }

  /** `i` is the first index of `es` holding its key. */
  predicate FirstOfKey(es: seq<Entity>, i: int)
    requires AllLocated(es)
  {
    0 <= i < |es| && forall j :: 0 <= j < i ==> KeyOf(es[j]) != KeyOf(es[i])
  }

  /** A reference definition of the result, built from the back: the last
      entity is kept exactly when no earlier entity has its key. */
  function UniqueByPrefix(es: seq<Entity>): seq<Entity>
    requires AllLocated(es)
  {
    if es == [] then []
    else
      var prefix := es[..|es| - 1];
      var last := es[|es| - 1];
      UniqueByPrefix(prefix) + (if KeyOf(last) in KeysOf(prefix) then [] else [last])
  }

  /** The loop computes the reference definition. */
  lemma UniqueIsUniqueByPrefix(es: seq<Entity>)
    requires AllLocated(es)
    ensures Unique(es) == UniqueByPrefix(es)
  {
    LoopIsUniqueByPrefix(es);
  }

  lemma {:induction false} LoopIsUniqueByPrefix(es: seq<Entity>)
    requires AllLocated(es)
    ensures DedupFrom(es, {}) == UniqueByPrefix(es)
    decreases |es|
  {
    if es != [] {
      var prefix := es[..|es| - 1];
      var last := es[|es| - 1];
      assert es == prefix + [last];
      LoopIsUniqueByPrefix(prefix);
      DedupAppend(prefix, [last], {});
      assert {} + KeysOf(prefix) == KeysOf(prefix);
      assert [last][1..] == [];
    }
  }

  /** First wins: an entity is kept exactly when it is the first with its
      key. */
  lemma FirstWins(es: seq<Entity>, e: Entity)
    requires AllLocated(es)
    ensures e in Unique(es) <==> exists i :: FirstOfKey(es, i) && es[i] == e
  {
    FirstWinsFrom(es, {}, e);
  }

  lemma {:induction false} FirstWinsFrom(es: seq<Entity>, seen: set<Key>, e: Entity)
    requires AllLocated(es)
    ensures e in DedupFrom(es, seen)
      <==> exists i :: FirstOfKey(es, i) && es[i] == e && KeyOf(e) !in seen
    decreases |es|
  {
    if es != [] {
      var k := KeyOf(es[0]);
      var tail := es[1..];
      var seen' := if k in seen then seen else seen + {k};
      FirstWinsFrom(tail, seen', e);
      if e in DedupFrom(es, seen) {
        if k !in seen && e == es[0] {
          assert FirstOfKey(es, 0);
        } else {
          assert e in DedupFrom(tail, seen');
          var i :| FirstOfKey(tail, i) && tail[i] == e && KeyOf(e) !in seen';
          assert FirstOfKey(es, i + 1) by {
            forall j | 0 <= j < i + 1
              ensures KeyOf(es[j]) != KeyOf(es[i + 1])
            {
              if j > 0 {
                assert es[j] == tail[j - 1];
              }
            }
          }
        }
      } else {
        if i :| FirstOfKey(es, i) && es[i] == e && KeyOf(e) !in seen {
          if i == 0 {
            assert false;
          } else {
            assert FirstOfKey(tail, i - 1) by {
              forall j | 0 <= j < i - 1
                ensures KeyOf(tail[j]) != KeyOf(tail[i - 1])
              {
                assert tail[j] == es[j + 1];
              }
            }
            assert false;
          }
        }
      }
    }
  }

  /** A list whose keys are already distinct, none of them seen, passes
      through unchanged. */
  lemma {:induction false} DedupFromDistinct(es: seq<Entity>, seen: set<Key>)
    requires AllLocated(es) && DistinctKeys(es)
    requires forall i :: 0 <= i < |es| ==> KeyOf(es[i]) !in seen
    ensures DedupFrom(es, seen) == es
    decreases |es|
  {
    if es != [] {
      var k := KeyOf(es[0]);
      forall i | 0 <= i < |es| - 1
        ensures KeyOf(es[1..][i]) !in seen + {k}
      {
        assert es[1..][i] == es[i + 1];
      }
      DedupFromDistinct(es[1..], seen + {k});
    }
  }

  /** Removing duplicates twice removes nothing more. */
  lemma Idempotent(es: seq<Entity>)
    requires AllLocated(es)
    ensures AllLocated(Unique(es))
    ensures Unique(Unique(es)) == Unique(es)
  {
    DedupFromDistinct(Unique(es), {});
  }

  /** The result keeps the input's order. */
  lemma UniqueKeepsOrder(es: seq<Entity>)
    requires AllLocated(es)
    ensures IsSubsequence(Unique(es), es)
  {
    DedupFromSubsequence(es, {});
  }
}
