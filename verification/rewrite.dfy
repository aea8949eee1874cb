/** Redaction of a document (DocumentProcessor.apply_anonymization in
    backend/server.py): the selected entities are sorted by the start of their
    first position, last first, and each one's span is replaced by its
    placeholder using Python slices, so that earlier offsets stay valid. */
module Rewrite {
  import opened Entities
  import opened Seqs

  /** The entities the user kept selected, in their original order. */
  function Selected(es: seq<Entity>): (r: seq<Entity>)
    ensures forall e :: e in r <==> e in es && e.selected
  {
    if es == [] then []
    else (if es[0].selected then [es[0]] else []) + Selected(es[1..])
  }

  /** Every selected entity has a first position (the source reads it). */
  predicate SelectionLocated(es: seq<Entity>) {
    forall e :: e in es && e.selected ==> e.Located()
  }

  /** A Python slice bound on a string of length `n`: a negative bound counts
      from the end, then the bound is clipped to the string. */
  function ClampIndex(i: int, n: nat): (j: nat)
    ensures j <= n
  {
    if i < 0 then (if i + n < 0 then 0 else i + n)
    else if i > n then n
    else i
  }

  /** One replacement step: `s[:start] + replacement + s[end:]`. */
  function Splice(s: string, e: Entity): (r: string)
    requires e.Located()
    ensures 0 <= e.Start() <= e.End() <= |s| ==>
      && |r| == |s| - (e.End() - e.Start()) + |e.replacement|
      && r[..e.Start()] == s[..e.Start()]
      && r[e.Start()..e.Start() + |e.replacement|] == e.replacement
      && r[e.Start() + |e.replacement|..] == s[e.End()..]
  {
    s[..ClampIndex(e.Start(), |s|)] + e.replacement + s[ClampIndex(e.End(), |s|)..]
  }

  /** The replacement loop: the entities spliced in the order given. */
  function SpliceAll(content: string, ordered: seq<Entity>): string
    requires AllLocated(ordered)
  {
    if ordered == [] then content
    else Splice(SpliceAll(content, ordered[..|ordered| - 1]), ordered[|ordered| - 1])
  }

  /** Starts never increase along the sequence. */
  predicate Descending(s: seq<Entity>)
    requires AllLocated(s)
  {
    forall i, j :: 0 <= i < j < |s| ==> s[i].Start() >= s[j].Start()
  }

  /** Starts strictly decrease along the sequence. */
  predicate StrictlyDescending(s: seq<Entity>)
    requires AllLocated(s)
  {
    forall i, j :: 0 <= i < j < |s| ==> s[i].Start() > s[j].Start()
  }

  /** Insertion of `x` into a list sorted by decreasing start, in front of
      the entities with the same start. */
  function InsertByStart(x: Entity, d: seq<Entity>): (r: seq<Entity>)
    requires x.Located() && AllLocated(d)
    ensures AllLocated(r)
    ensures multiset(r) == multiset(d) + multiset{x}
  {
    if d == [] || x.Start() >= d[0].Start() then [x] + d
    else
      assert d == [d[0]] + d[1..];
      [d[0]] + InsertByStart(x, d[1..])
  }

  /** Insertion keeps a list sorted by decreasing start. */
  lemma {:induction false} InsertKeepsDescending(x: Entity, d: seq<Entity>)
    requires x.Located() && AllLocated(d) && Descending(d)
    ensures Descending(InsertByStart(x, d))
    decreases |d|
  {
    if d != [] && x.Start() < d[0].Start() {
      var y, tail := d[0], d[1..];
      InsertKeepsDescending(x, tail);
      HeadBoundsTail(d);
      InsertBelow(x, tail, y.Start());
      ConsDescending(y, InsertByStart(x, tail));
    }
  }

  /** In a descending list the head's start bounds every later start. */
  lemma HeadBoundsTail(d: seq<Entity>)
    requires AllLocated(d) && Descending(d) && d != []
    ensures Descending(d[1..])
    ensures forall e :: e in d[1..] ==> e.Start() <= d[0].Start()
  {
    forall e | e in d[1..]
      ensures e.Start() <= d[0].Start()
    {
      var k :| 0 <= k < |d[1..]| && d[1..][k] == e;
      assert d[k + 1] == e;
    }
  }

  /** A start no smaller than every start of a descending list may head it. */
  lemma ConsDescending(y: Entity, rest: seq<Entity>)
    requires y.Located() && AllLocated(rest) && Descending(rest)
    requires forall e :: e in rest ==> e.Start() <= y.Start()
    ensures AllLocated([y] + rest) && Descending([y] + rest)
  {
    var r := [y] + rest;
    forall i, j | 0 <= i < j < |r|
      ensures r[i].Start() >= r[j].Start()
    {
      assert r[j] == rest[j - 1] && rest[j - 1] in rest;
      if i > 0 {
        assert r[i] == rest[i - 1];
      }
    }
  }

  /** Insertion below a bound stays below it. */
  lemma {:induction false} InsertBelow(x: Entity, d: seq<Entity>, bound: int)
    requires x.Located() && AllLocated(d)
    requires x.Start() <= bound
    requires forall e :: e in d ==> e.Start() <= bound
    ensures forall e :: e in InsertByStart(x, d) ==> e.Start() <= bound
    decreases |d|
  {
    if d != [] && x.Start() < d[0].Start() {
      assert d[0] in d;
      forall e | e in d[1..]
        ensures e.Start() <= bound
      {
        assert e in d;
      }
      InsertBelow(x, d[1..], bound);
    }
  }

  /** `sorted(..., key=start, reverse=True)`, by insertion: a permutation
      of its input with non-increasing starts that is stable, i.e. entities
      with the same start keep their input order, as Python's sort does. */
  function SortByStartDesc(es: seq<Entity>): (r: seq<Entity>)
    requires AllLocated(es)
    ensures AllLocated(r)
    ensures multiset(r) == multiset(es)
    ensures Descending(r)
    ensures forall v :: WithStart(r, v) == WithStart(es, v)
    decreases |es|
  {
    if es == [] then []
    else
      var x, rest := es[0], SortByStartDesc(es[1..]);
      assert x in es;
      assert es == [x] + es[1..];
      InsertKeepsDescending(x, rest);
      assert forall v :: WithStart(InsertByStart(x, rest), v) == WithStart(es, v) by {
        forall v
          ensures WithStart(InsertByStart(x, rest), v) == WithStart(es, v)
        {
          InsertKeepsTies(x, rest, v);
          WithStartCons(x, es[1..], v);
        }
      }
      InsertByStart(x, rest)
  }

  /** The entities of `s` whose first position starts at `v`, in order. */
  function WithStart(s: seq<Entity>, v: int): seq<Entity>
    requires AllLocated(s)
  {
    if s == [] then []
    else (if s[0].Start() == v then [s[0]] else []) + WithStart(s[1..], v)
  }

  lemma WithStartCons(e: Entity, s: seq<Entity>, v: int)
    requires e.Located() && AllLocated(s)
    ensures AllLocated([e] + s)
    ensures WithStart([e] + s, v) == (if e.Start() == v then [e] else []) + WithStart(s, v)
  {
    assert ([e] + s)[0] == e && ([e] + s)[1..] == s;
  }

  /** Inserting `x` puts it in front of the entities with its start. */
  lemma {:induction false} InsertKeepsTies(x: Entity, d: seq<Entity>, v: int)
    requires x.Located() && AllLocated(d)
    ensures WithStart(InsertByStart(x, d), v) == (if x.Start() == v then [x] else []) + WithStart(d, v)
    decreases |d|
  {
    if d == [] || x.Start() >= d[0].Start() {
      WithStartCons(x, d, v);
    } else {
      var y, tail := d[0], d[1..];
      var rest := InsertByStart(x, tail);
      assert y in d;
      assert d == [y] + tail;
      assert InsertByStart(x, d) == [y] + rest;
      InsertKeepsTies(x, tail, v);
      WithStartCons(y, rest, v);
      WithStartCons(y, tail, v);
      if x.Start() == v {
        // y starts after x, so y is not among the entities starting at v.
        assert WithStart([y] + rest, v) == WithStart(rest, v);
        assert WithStart(d, v) == WithStart(tail, v);
      } else {
        assert WithStart(rest, v) == WithStart(tail, v);
      }
    }
  }

  /** apply_anonymization, as a function; with nothing selected the
      document comes back unchanged. */
  function Anonymize(content: string, es: seq<Entity>): (r: string)
    requires SelectionLocated(es)
    ensures (forall e :: e in es ==> !e.selected) ==> r == content
  {
    assert (forall e :: e in es ==> !e.selected) ==> Selected(es) == [] by {
      if forall e :: e in es ==> !e.selected {
        NoneSelected(es);
      }
    }
    SpliceAll(content, SortByStartDesc(Selected(es)))
  }

  lemma {:induction false} NoneSelected(es: seq<Entity>)
    requires forall e :: e in es ==> !e.selected
    ensures Selected(es) == []
    decreases |es|
  {
    if es != [] {
      assert es[0] in es;
      forall e | e in es[1..]
        ensures !e.selected
      {
        assert e in es;
      }
      NoneSelected(es[1..]);
    }
  }

  /** apply_anonymization. */
  method ApplyAnonymization(content: string, entities: seq<Entity>) returns (result: string)
    requires SelectionLocated(entities)
    ensures result == Anonymize(content, entities)
    ensures (forall e :: e in entities ==> !e.selected) ==> result == content
  {
    var ordered := SortByStartDesc(Selected(entities));
    result := content;
    var i := 0;
    while i < |ordered|
      invariant 0 <= i <= |ordered|
      invariant result == SpliceAll(content, ordered[..i])
    {
      var e := ordered[i];
      assert e in ordered;
      var pos := e.positions[0];
      SpliceAllPrefix(content, ordered, i);
      result := result[..ClampIndex(pos.start, |result|)] + e.replacement
        + result[ClampIndex(pos.end, |result|)..];
      i := i + 1;
    }
    assert ordered[..|ordered|] == ordered;
  }

  /** One more turn of the replacement loop splices the next entity. */
  lemma SpliceAllPrefix(content: string, ordered: seq<Entity>, i: nat)
    requires AllLocated(ordered) && i < |ordered|
    ensures AllLocated(ordered[..i]) && AllLocated(ordered[..i + 1])
    ensures SpliceAll(content, ordered[..i + 1]) == Splice(SpliceAll(content, ordered[..i]), ordered[i])
  {
    assert ordered[..i + 1][..i] == ordered[..i];
    assert ordered[i] in ordered;
    forall e | e in ordered[..i + 1]
      ensures e.Located()
    {
      assert e in ordered;
    }
  }

  lemma {:induction false} SelectedAppend(a: seq<Entity>, b: seq<Entity>)
    ensures Selected(a + b) == Selected(a) + Selected(b)
    decreases |a|
  {
    if a == [] {
      assert a + b == b;
    } else {
      assert (a + b)[1..] == a[1..] + b;
      SelectedAppend(a[1..], b);
    }
  }

  /** An unselected entity has no effect, wherever it sits in the list. */
  lemma UnselectedIrrelevant(content: string, a: seq<Entity>, u: Entity, b: seq<Entity>)
    requires !u.selected
    requires SelectionLocated(a + [u] + b)
    ensures SelectionLocated(a + b)
    ensures Anonymize(content, a + [u] + b) == Anonymize(content, a + b)
  {
    SelectedAppend(a + [u], b);
    SelectedAppend(a, [u]);
    SelectedAppend(a, b);
    assert Selected([u]) == [];
    assert Selected(a + [u]) == Selected(a);
  }

  /** How often an entity occurs among the selected ones. */
  lemma {:induction false} SelectedCounts(es: seq<Entity>, x: Entity)
    ensures multiset(Selected(es))[x] == if x.selected then multiset(es)[x] else 0
    decreases |es|
  {
    if es != [] {
      SelectedCounts(es[1..], x);
      assert es == [es[0]] + es[1..];
    }
  }

  /** Every selected span lies inside the text and covers at least one
      character. */
  predicate InText(s: seq<Entity>, n: nat)
    requires AllLocated(s)
  {
    forall i :: 0 <= i < |s| ==> 0 <= s[i].Start() < s[i].End() <= n
  }

  /** No two entries of `s` overlap. */
  predicate Separated(s: seq<Entity>)
    requires AllLocated(s)
  {
    forall i, j :: 0 <= i < |s| && 0 <= j < |s| && i != j ==>
      s[i].End() <= s[j].Start() || s[j].End() <= s[i].Start()
  }

  /** The selected spans are non-empty, inside the document and pairwise
      disjoint: the situation in which redaction has a closed form. */
  predicate Redactable(content: string, es: seq<Entity>)
    requires SelectionLocated(es)
  {
    InText(Selected(es), |content|) && Separated(Selected(es))
  }

  /** Each span ends before the next one starts. */
  predicate Chain(s: seq<Entity>)
    requires AllLocated(s)
  {
    forall i, j :: 0 <= i < j < |s| ==> s[i].End() <= s[j].Start()
  }

  /** The characters an entity covers. */
  function SpanLength(e: Entity): int {
    if e.Located() then e.End() - e.Start() else 0
  }

  function ReplacementLength(e: Entity): int {
    |e.replacement|
  }

  /** The redacted text read left to right from offset `m`: the untouched
      stretch before each span, then the span's placeholder. */
  function Rebuild(content: string, asc: seq<Entity>, m: nat): (r: string)
    requires AllLocated(asc) && InText(asc, |content|) && Chain(asc)
    requires m <= |content|
    requires forall k :: 0 <= k < |asc| ==> m <= asc[k].Start()
    decreases |asc|
  {
    if asc == [] then content[m..]
    else
      var x := asc[0];
      content[m..x.Start()] + x.replacement + Rebuild(content, asc[1..], x.End())
  }

  /** The left-to-right reading has the document's length from `m` on, less
      the spans, plus the placeholders. */
  lemma {:induction false} RebuildLength(content: string, asc: seq<Entity>, m: nat)
    requires AllLocated(asc) && InText(asc, |content|) && Chain(asc)
    requires m <= |content|
    requires forall k :: 0 <= k < |asc| ==> m <= asc[k].Start()
    ensures |Rebuild(content, asc, m)|
      == |content| - m - SumOver(asc, SpanLength) + SumOver(asc, ReplacementLength)
    decreases |asc|
  {
    if asc != [] {
      RebuildLength(content, asc[1..], asc[0].End());
    }
  }

  /** The last entity of the list is spliced last. */
  lemma SpliceAllSnoc(content: string, ordered: seq<Entity>, x: Entity)
    requires AllLocated(ordered) && x.Located()
    ensures AllLocated(ordered + [x])
    ensures SpliceAll(content, ordered + [x]) == Splice(SpliceAll(content, ordered), x)
  {
    assert (ordered + [x])[..|ordered + [x]| - 1] == ordered;
  }

  /** Splicing `x` into a text that agrees with the document up to the end
      of `x` replaces exactly the span of `x`. */
  lemma SpliceFront(content: string, x: Entity, tail: string)
    requires x.Located() && 0 <= x.Start() <= x.End() <= |content|
    ensures Splice(content[..x.End()] + tail, x) == content[..x.Start()] + x.replacement + tail
  {
    var t := content[..x.End()] + tail;
    assert t[..x.Start()] == content[..x.Start()];
    assert t[x.End()..] == tail;
  }

  /** Reading a chain backwards gives strictly decreasing starts. */
  lemma ReversedChain(asc: seq<Entity>, n: nat)
    requires AllLocated(asc) && InText(asc, n) && Chain(asc)
    ensures AllLocated(Reverse(asc))
    ensures StrictlyDescending(Reverse(asc))
  {
    var rev := Reverse(asc);
    var k := |asc|;
    forall e | e in rev
      ensures e.Located()
    {
      assert e in multiset(asc);
    }
    forall i, j | 0 <= i < j < |rev|
      ensures rev[i].Start() > rev[j].Start()
    {
      assert rev[i] == asc[k - 1 - i] && rev[j] == asc[k - 1 - j];
      assert asc[k - 1 - j] in asc;
    }
  }

  /** The tail of a chain is a chain starting after the end of its head. */
  lemma ChainTail(content: string, asc: seq<Entity>, m: nat)
    requires AllLocated(asc) && InText(asc, |content|) && Chain(asc) && asc != []
    requires forall k :: 0 <= k < |asc| ==> m <= asc[k].Start()
    ensures asc[0].Located() && m <= asc[0].Start() <= asc[0].End() <= |content|
    ensures AllLocated(asc[1..]) && InText(asc[1..], |content|) && Chain(asc[1..])
    ensures forall k :: 0 <= k < |asc[1..]| ==> asc[0].End() <= asc[1..][k].Start()
  {
    assert asc[0] in asc;
    forall e | e in asc[1..]
      ensures e.Located()
    {
      assert e in asc;
    }
  }

  /** One splice in front of a text that already agrees with the document
      up to the end of the spliced entity. */
  lemma SpliceStep(content: string, rev: seq<Entity>, x: Entity, tail: string, m: nat)
    requires AllLocated(rev) && x.Located()
    requires m <= x.Start() <= x.End() <= |content|
    requires SpliceAll(content, rev) == content[..x.End()] + tail
    ensures AllLocated(rev + [x])
    ensures SpliceAll(content, rev + [x]) == content[..m] + (content[m..x.Start()] + x.replacement + tail)
  {
    SpliceAllSnoc(content, rev, x);
    SpliceFront(content, x, tail);
    Regroup(content, m, x.Start(), x.replacement, tail);
  }

  /** Cutting a prefix of `s` at `m` instead of at `k`. */
  lemma Regroup<T>(s: seq<T>, m: nat, k: nat, r: seq<T>, t: seq<T>)
    requires m <= k <= |s|
    ensures s[..k] + r + t == s[..m] + (s[m..k] + r + t)
  {
    assert s[..k] == s[..m] + s[m..k];
  }

  /** Splicing the spans of an ascending chain from the last to the first
      leaves the text before `m` alone and rebuilds the rest left to right. */
  lemma {:induction false} SpliceAllReversed(content: string, asc: seq<Entity>, m: nat)
    requires AllLocated(asc) && InText(asc, |content|) && Chain(asc)
    requires m <= |content|
    requires forall k :: 0 <= k < |asc| ==> m <= asc[k].Start()
    ensures AllLocated(Reverse(asc))
    ensures SpliceAll(content, Reverse(asc)) == content[..m] + Rebuild(content, asc, m)
    decreases |asc|
  {
    if asc == [] {
      assert content[..m] + content[m..] == content;
    } else {
      var x, rest := asc[0], asc[1..];
      ChainTail(content, asc, m);
      SpliceAllReversed(content, rest, x.End());
      SpliceStep(content, Reverse(rest), x, Rebuild(content, rest, x.End()), m);
      assert Reverse(asc) == Reverse(rest) + [x];
    }
  }

  /** A sequence sorted by decreasing start equals the strictly decreasing
      arrangement of the same entities. */
  lemma {:induction false} SortedUnique(x: seq<Entity>, y: seq<Entity>)
    requires AllLocated(x) && AllLocated(y)
    requires Descending(x) && StrictlyDescending(y)
    requires multiset(x) == multiset(y)
    ensures x == y
    decreases |x|
  {
    assert |y| == |multiset(y)| == |multiset(x)| == |x|;
    if x != [] {
      HeadsAgree(x, y);
      TailsAgree(x, y);
      SortedUnique(x[1..], y[1..]);
      assert x == [x[0]] + x[1..] && y == [y[0]] + y[1..];
    }
  }

  /** The first entity of both arrangements has the greatest start, and
      only one entity of the strict one has it. */
  lemma HeadsAgree(x: seq<Entity>, y: seq<Entity>)
    requires AllLocated(x) && AllLocated(y) && x != [] && y != []
    requires Descending(x) && StrictlyDescending(y)
    requires multiset(x) == multiset(y)
    ensures x[0] == y[0]
  {
    assert x[0] in multiset(y);
    var p :| 0 <= p < |y| && y[p] == x[0];
    assert y[0] in multiset(x);
    var q :| 0 <= q < |x| && x[q] == y[0];
    assert x[0].Start() >= y[0].Start() >= x[0].Start();
  }

  /** Equal heads leave equal multisets of the remaining entities. */
  lemma TailsAgree<T>(x: seq<T>, y: seq<T>)
    requires x != [] && y != [] && x[0] == y[0]
    requires multiset(x) == multiset(y)
    ensures multiset(x[1..]) == multiset(y[1..])
  {
    assert x == [x[0]] + x[1..] && y == [y[0]] + y[1..];
    assert multiset(x[1..]) == multiset(x) - multiset{x[0]};
    assert multiset(y[1..]) == multiset(y) - multiset{y[0]};
  }

  /** An entity that occurs at two places of `s` occurs at least twice in
      its multiset. */
  lemma TwoPlaces(s: seq<Entity>, i: nat, j: nat)
    requires i < j < |s| && s[i] == s[j]
    ensures multiset(s)[s[i]] >= 2
  {
    assert s == s[..i] + [s[i]] + s[i + 1..j] + [s[j]] + s[j + 1..];
  }

  /** An entity that occurs at one place only occurs once in its multiset. */
  lemma OnePlace(s: seq<Entity>, p: nat)
    requires p < |s|
    requires forall q :: 0 <= q < |s| && q != p ==> s[q] != s[p]
    ensures multiset(s)[s[p]] == 1
  {
    assert s == s[..p] + [s[p]] + s[p + 1..];
    assert s[p] !in s[..p];
    assert s[p] !in s[p + 1..];
  }

  /** Non-empty, in-text, pairwise disjoint spans stay so under any
      rearrangement. */
  lemma SeparatedPermutation(s: seq<Entity>, t: seq<Entity>, n: nat)
    requires AllLocated(s) && InText(s, n) && Separated(s)
    requires multiset(s) == multiset(t)
    ensures AllLocated(t) && InText(t, n) && Separated(t)
  {
    forall i | 0 <= i < |t|
      ensures t[i].Located() && 0 <= t[i].Start() < t[i].End() <= n
    {
      assert t[i] in multiset(s);
    }
    forall i, j | 0 <= i < |t| && 0 <= j < |t| && i != j
      ensures t[i].End() <= t[j].Start() || t[j].End() <= t[i].Start()
    {
      assert t[i] in multiset(s) && t[j] in multiset(s);
      var p :| 0 <= p < |s| && s[p] == t[i];
      if t[i] == t[j] {
        if i < j { TwoPlaces(t, i, j); } else { TwoPlaces(t, j, i); }
        if forall q :: 0 <= q < |s| && q != p ==> s[q] != s[p] {
          OnePlace(s, p);
        }
        assert false;
      } else {
        var q :| 0 <= q < |s| && s[q] == t[j];
      }
    }
  }

  /** Disjoint spans sorted by decreasing start, read backwards, form an
      ascending chain. */
  lemma DescendingReversedIsChain(d: seq<Entity>, n: nat)
    requires AllLocated(d) && InText(d, n) && Separated(d) && Descending(d)
    ensures AllLocated(Reverse(d))
    ensures Chain(Reverse(d))
  {
    var asc := Reverse(d);
    var k := |d|;
    forall e | e in asc
      ensures e.Located()
    {
      assert e in multiset(d);
    }
    forall i, j | 0 <= i < j < |asc|
      ensures asc[i].End() <= asc[j].Start()
    {
      assert asc[i] == d[k - 1 - i] && asc[j] == d[k - 1 - j];
    }
  }

  /** Under Redactable, the order apply_anonymization uses is, read
      backwards, an ascending chain of the selected entities. */
  lemma ProcessingOrderIsChain(content: string, es: seq<Entity>)
    requires SelectionLocated(es) && Redactable(content, es)
    ensures AllLocated(Selected(es))
    ensures AllLocated(Reverse(SortByStartDesc(Selected(es))))
    ensures var asc := Reverse(SortByStartDesc(Selected(es)));
      InText(asc, |content|) && Chain(asc) && multiset(asc) == multiset(Selected(es))
  {
    var sel := Selected(es);
    var d := SortByStartDesc(sel);
    SeparatedPermutation(sel, d, |content|);
    DescendingReversedIsChain(d, |content|);
    SeparatedPermutation(d, Reverse(d), |content|);
  }

  /** Closed form: for non-overlapping spans inside the document, the result
      is the document read left to right with each selected span replaced
      by its placeholder, whatever ascending arrangement is used to read it. */
  lemma ClosedForm(content: string, es: seq<Entity>, asc: seq<Entity>)
    requires SelectionLocated(es)
    requires AllLocated(asc) && InText(asc, |content|) && Chain(asc)
    requires multiset(asc) == multiset(Selected(es))
    ensures Anonymize(content, es) == Rebuild(content, asc, 0)
  {
    var d := SortByStartDesc(Selected(es));
    assert Anonymize(content, es) == SpliceAll(content, d);
    ReversedChain(asc, |content|);
    SortedUnique(d, Reverse(asc));
    assert d == Reverse(asc);
    SpliceAllReversed(content, asc, 0);
    assert content[..0] + Rebuild(content, asc, 0) == Rebuild(content, asc, 0);
  }

  /** The length of the result: the document's length, less the selected
      spans, plus their placeholders. */
  lemma LengthFormula(content: string, es: seq<Entity>)
    requires SelectionLocated(es) && Redactable(content, es)
    ensures |Anonymize(content, es)|
      == |content| - SumOver(Selected(es), SpanLength) + SumOver(Selected(es), ReplacementLength)
  {
    ProcessingOrderIsChain(content, es);
    var asc := Reverse(SortByStartDesc(Selected(es)));
    ClosedForm(content, es, asc);
    RebuildLength(content, asc, 0);
    SumOverPermutation(asc, Selected(es), SpanLength);
    SumOverPermutation(asc, Selected(es), ReplacementLength);
  }

  /** For non-overlapping spans the result does not depend on the order in
      which the entities are listed. */
  lemma OrderIndependent(content: string, es1: seq<Entity>, es2: seq<Entity>)
    requires SelectionLocated(es1) && SelectionLocated(es2)
    requires multiset(es1) == multiset(es2)
    requires Redactable(content, es1)
    ensures Anonymize(content, es1) == Anonymize(content, es2)
  {
    forall x
      ensures multiset(Selected(es1))[x] == multiset(Selected(es2))[x]
    {
      SelectedCounts(es1, x);
      SelectedCounts(es2, x);
    }
    assert multiset(Selected(es1)) == multiset(Selected(es2));
    ProcessingOrderIsChain(content, es1);
    var asc := Reverse(SortByStartDesc(Selected(es1)));
    ClosedForm(content, es1, asc);
    ClosedForm(content, es2, asc);
  }
}
