/** The tag index the viewer rebuilds after every change: for each tag, the
    ids of the active units that carry it (`tagsDictionary`) and its number of
    occurrences (`tagOccurrences`), plus the order in which tags were first
    met, which is the order `Object.keys` lists them in. Also the order the
    tags are displayed in: by descending count, ties in that first-met order. */
module Tags {
  import opened SeqSet
  import opened Labels

  datatype TagIndex = TagIndex(order: seq<Entry>, units: map<Entry, seq<Id>>, counts: map<Entry, int>)

  const NoTags := TagIndex([], map[], map[])

  /** `tagOccurrences[t]`, with 0 for a tag that is not a key. */
  function CountOf(counts: map<Entry, int>, t: Entry): int {
    if t in counts then counts[t] else 0
  }

  /** One step of the inner loop of `createTagsDictionary`: a note is skipped;
      a tag gets `id` pushed onto its list and its count raised by one,
      the first time creating both. */
  function Record(ix: TagIndex, id: Id, entry: Entry): TagIndex {
    if IsNote(entry) then ix
    else if entry in ix.units then
      ix.(units := ix.units[entry := ix.units[entry] + [id]],
          counts := ix.counts[entry := CountOf(ix.counts, entry) + 1])
    else
      ix.(order := ix.order + [entry],
          units := ix.units[entry := [id]],
          counts := ix.counts[entry := 1])
  }

  /** The inner loop over one unit's entries. */
  function RecordAll(ix: TagIndex, id: Id, entries: seq<Entry>): TagIndex
    decreases entries
  {
    if entries == [] then ix else RecordAll(Record(ix, id, entries[0]), id, entries[1..])
  }

  /** The outer loop over the active units, in order. */
  function BuildFrom(ix: TagIndex, active: seq<Id>, st: LabelStore): TagIndex
    decreases active
  {
    if active == [] then ix
    else BuildFrom(RecordAll(ix, active[0], LabelsOf(st, active[0])), active[1..], st)
  }

  /** `createTagsDictionary` over the active units of `st`. */
  function BuildIndex(active: seq<Id>, st: LabelStore): TagIndex {
    BuildFrom(NoTags, active, st)
  }

  // ---------------------------------------------------------------------
  // Reference definition, tag by tag

  function Repeat(id: Id, n: nat): (r: seq<Id>)
    ensures |r| == n
    ensures forall x :: x in r <==> n > 0 && x == id
  {
    if n == 0 then [] else Repeat(id, n - 1) + [id]
  }

  /** The list the index should hold for `t`: each active unit, in order, once
      per occurrence of `t` in its entries. */
  function Posting(t: Entry, active: seq<Id>, st: LabelStore): seq<Id> {
    if active == [] then []
    else
      var last := active[|active| - 1];
      Posting(t, active[..|active| - 1], st) + Repeat(last, Occurrences(t, LabelsOf(st, last)))
  }

  /** Occurrences of `t` summed over the entry lists of the active units. */
  function TotalOccurrences(t: Entry, active: seq<Id>, st: LabelStore): nat {
    if active == [] then 0
    else
      var last := active[|active| - 1];
      TotalOccurrences(t, active[..|active| - 1], st) + Occurrences(t, LabelsOf(st, last))
  }

  /** The reference list has one id per occurrence, and lists exactly the
      active units that carry the tag. */
  lemma {:induction false} PostingSpec(t: Entry, active: seq<Id>, st: LabelStore)
    ensures |Posting(t, active, st)| == TotalOccurrences(t, active, st)
    ensures forall x :: x in Posting(t, active, st) <==> x in active && t in LabelsOf(st, x)
  {
    if active != [] {
      var init, last := active[..|active| - 1], active[|active| - 1];
      assert active == init + [last];
      PostingSpec(t, init, st);
      OccurrencesPositive(t, LabelsOf(st, last));
    }
  }

  /** What the index holds part-way through: the units of `done` have been
      recorded, and of unit `id` the entries `pre`. */
  function Pending(t: Entry, done: seq<Id>, st: LabelStore, id: Id, pre: seq<Entry>): seq<Id> {
    Posting(t, done, st) + Repeat(id, Occurrences(t, pre))
  }

  /** The index is well formed: both maps have the same keys, and the tag
      order lists each key once. */
  ghost predicate Shape(ix: TagIndex) {
    && ix.counts.Keys == ix.units.Keys
    && NoDup(ix.order)
    && (forall t :: t in ix.order <==> t in ix.units)
  }

  ghost predicate Agrees(ix: TagIndex, done: seq<Id>, st: LabelStore, id: Id, pre: seq<Entry>) {
    Shape(ix) && Matches(ix, done, st, id, pre)
  }

  ghost predicate Matches(ix: TagIndex, done: seq<Id>, st: LabelStore, id: Id, pre: seq<Entry>) {
    && (forall t :: t in ix.units <==> !IsNote(t) && Pending(t, done, st, id, pre) != [])
    && (forall t :: t in ix.units ==>
          ix.units[t] == Pending(t, done, st, id, pre) && CountOf(ix.counts, t) == |ix.units[t]|)
  }

  lemma OccurrencesSnoc(t: Entry, pre: seq<Entry>, entry: Entry)
    ensures Occurrences(t, pre + [entry]) == Occurrences(t, pre) + (if entry == t then 1 else 0)
  {
    assert (pre + [entry])[..|pre|] == pre;
  }

  lemma PendingSnoc(t: Entry, done: seq<Id>, st: LabelStore, id: Id, pre: seq<Entry>, entry: Entry)
    ensures Pending(t, done, st, id, pre + [entry])
            == Pending(t, done, st, id, pre) + (if entry == t then [id] else [])
  {
    OccurrencesSnoc(t, pre, entry);
    var p := Posting(t, done, st);
    var n := Occurrences(t, pre);
    if entry == t {
      assert Repeat(id, n + 1) == Repeat(id, n) + [id];
      ConcatAssoc(p, Repeat(id, n), [id]);
    }
  }

  lemma RecordShape(ix: TagIndex, id: Id, entry: Entry)
    requires Shape(ix)
    ensures Shape(Record(ix, id, entry))
  {
    if !IsNote(entry) && entry !in ix.units {
      NoDupSnoc(ix.order, entry);
    }
  }

  lemma RecordStep(ix: TagIndex, done: seq<Id>, st: LabelStore, id: Id, pre: seq<Entry>, entry: Entry)
    requires Agrees(ix, done, st, id, pre)
    ensures Agrees(Record(ix, id, entry), done, st, id, pre + [entry])
  {
    RecordShape(ix, id, entry);
    var pre' := pre + [entry];
    forall t | t != entry
      ensures Pending(t, done, st, id, pre') == Pending(t, done, st, id, pre)
    {
      PendingSnoc(t, done, st, id, pre, entry);
    }
    PendingSnoc(entry, done, st, id, pre, entry);
    if IsNote(entry) {
      assert entry !in ix.units;
      assert Matches(ix, done, st, id, pre');
    } else if entry in ix.units {
      RecordKnown(ix, done, st, id, pre, entry);
    } else {
      RecordNew(ix, done, st, id, pre, entry);
    }
  }

  lemma RecordKnown(ix: TagIndex, done: seq<Id>, st: LabelStore, id: Id, pre: seq<Entry>, entry: Entry)
    requires Matches(ix, done, st, id, pre) && !IsNote(entry) && entry in ix.units
    requires ix.counts.Keys == ix.units.Keys
    requires forall t :: t != entry ==> Pending(t, done, st, id, pre + [entry]) == Pending(t, done, st, id, pre)
    requires Pending(entry, done, st, id, pre + [entry]) == Pending(entry, done, st, id, pre) + [id]
    ensures Matches(Record(ix, id, entry), done, st, id, pre + [entry])
  {
  }

  lemma RecordNew(ix: TagIndex, done: seq<Id>, st: LabelStore, id: Id, pre: seq<Entry>, entry: Entry)
    requires Matches(ix, done, st, id, pre) && !IsNote(entry) && entry !in ix.units
    requires forall t :: t != entry ==> Pending(t, done, st, id, pre + [entry]) == Pending(t, done, st, id, pre)
    requires Pending(entry, done, st, id, pre + [entry]) == Pending(entry, done, st, id, pre) + [id]
    ensures Matches(Record(ix, id, entry), done, st, id, pre + [entry])
  {
    assert Pending(entry, done, st, id, pre) == [];
  }

  lemma {:induction false} RecordAllStep(ix: TagIndex, done: seq<Id>, st: LabelStore, id: Id,
                                         pre: seq<Entry>, entries: seq<Entry>)
    requires Agrees(ix, done, st, id, pre)
    ensures Agrees(RecordAll(ix, id, entries), done, st, id, pre + entries)
    decreases entries
  {
    if entries == [] {
      AppendNothing(pre);
    } else {
      var pre1 := pre + [entries[0]];
      RecordStep(ix, done, st, id, pre, entries[0]);
      RecordAllStep(Record(ix, id, entries[0]), done, st, id, pre1, entries[1..]);
      ConsAssoc(pre, entries);
    }
  }

  lemma AppendNothing(s: seq<Entry>)
    ensures s + [] == s
  {
  }

  lemma ConsAssoc(pre: seq<Entry>, entries: seq<Entry>)
    requires entries != []
    ensures (pre + [entries[0]]) + entries[1..] == pre + entries
  {
    assert entries == [entries[0]] + entries[1..];
  }

  /** Recording a whole unit turns "done plus the unit's entries" into "done
      plus the unit". */
  lemma UnitDone(ix: TagIndex, done: seq<Id>, st: LabelStore, id: Id)
    requires Agrees(ix, done, st, id, LabelsOf(st, id))
    ensures forall other :: Agrees(ix, done + [id], st, other, [])
  {
    assert (done + [id])[..|done|] == done;
    forall t
      ensures Pending(t, done, st, id, LabelsOf(st, id)) == Posting(t, done + [id], st)
    {
    }
  }

  lemma {:induction false} BuildFromStep(ix: TagIndex, done: seq<Id>, active: seq<Id>, st: LabelStore, id: Id)
    requires Agrees(ix, done, st, id, [])
    ensures forall other :: Agrees(BuildFrom(ix, active, st), done + active, st, other, [])
    decreases active
  {
    if active == [] {
      assert done + active == done;
      forall other
        ensures Agrees(ix, done, st, other, [])
      {
        assert forall t :: Pending(t, done, st, other, []) == Pending(t, done, st, id, []);
      }
    } else {
      var x := active[0];
      assert forall t :: Pending(t, done, st, x, []) == Pending(t, done, st, id, []);
      assert Agrees(ix, done, st, x, []);
      RecordAllStep(ix, done, st, x, [], LabelsOf(st, x));
      assert [] + LabelsOf(st, x) == LabelsOf(st, x);
      var ix' := RecordAll(ix, x, LabelsOf(st, x));
      UnitDone(ix', done, st, x);
      BuildFromStep(ix', done + [x], active[1..], st, x);
      assert done + [x] + active[1..] == done + active;
    }
  }

  /** The index built by the loops holds, for every tag, exactly the reference
      list: each active unit once per occurrence of the tag, in order. Notes
      are never keys, and each count is the length of its list. */
  lemma BuildIndexMatchesReference(active: seq<Id>, st: LabelStore)
    ensures var ix := BuildIndex(active, st);
            && ix.counts.Keys == ix.units.Keys
            && NoDup(ix.order)
            && (forall t :: t in ix.order <==> t in ix.units)
            && (forall t :: t in ix.units <==> !IsNote(t) && Posting(t, active, st) != [])
            && (forall t :: t in ix.units ==>
                  ix.units[t] == Posting(t, active, st) && ix.counts[t] == |ix.units[t]|)
  {
    var id: Id := [];
    assert Agrees(NoTags, [], st, id, []);
    BuildFromStep(NoTags, [], active, st, id);
    assert [] + active == active;
    var ix := BuildIndex(active, st);
    assert Agrees(ix, active, st, id, []);
    assert forall t :: Pending(t, active, st, id, []) == Posting(t, active, st);
  }

  /** The rebuilt index in terms of the entry store: a tag is a key exactly when some active unit carries it and
      it is not a note; its count is its number of occurrences across the
      active units, which is also the length of its id list; its id list names
      exactly the active units that carry it. */
  lemma BuildIndexSpec(active: seq<Id>, st: LabelStore)
    ensures var ix := BuildIndex(active, st);
            && ix.counts.Keys == ix.units.Keys
            && (forall t :: t in ix.units ==> !IsNote(t))
            && (forall t :: t in ix.units <==>
                  !IsNote(t) && exists x :: x in active && t in LabelsOf(st, x))
            && (forall t :: t in ix.units ==> ix.counts[t] == |ix.units[t]| == TotalOccurrences(t, active, st))
            && (forall t, x :: t in ix.units ==> (x in ix.units[t] <==> x in active && t in LabelsOf(st, x)))
  {
    BuildIndexMatchesReference(active, st);
    var ix := BuildIndex(active, st);
    forall t
      ensures t in ix.units <==> !IsNote(t) && exists x :: x in active && t in LabelsOf(st, x)
      ensures t in ix.units ==> |ix.units[t]| == TotalOccurrences(t, active, st)
      ensures forall x :: t in ix.units ==> (x in ix.units[t] <==> x in active && t in LabelsOf(st, x))
    {
      PostingSpec(t, active, st);
      var p := Posting(t, active, st);
      if exists x :: x in active && t in LabelsOf(st, x) {
        var x :| x in active && t in LabelsOf(st, x);
        assert x in p;
      }
      if p != [] {
        assert p[0] in p;
      }
    }
  }

  /** The count the index gives any text: the number of its occurrences
      among the active units for a tag, and 0 for a note. */
  lemma CountOfIndex(active: seq<Id>, st: LabelStore, t: Entry)
    ensures CountOf(BuildIndex(active, st).counts, t)
            == if IsNote(t) then 0 else TotalOccurrences(t, active, st)
  {
    BuildIndexMatchesReference(active, st);
    PostingSpec(t, active, st);
  }

  // ---------------------------------------------------------------------
  // The order of the tags in the index

  /** The tags of the active units, unit after unit, each unit's in entry
      order. */
  function TagStream(active: seq<Id>, st: LabelStore): seq<Entry> {
    if active == [] then [] else TagEntries(LabelsOf(st, active[0])) + TagStream(active[1..], st)
  }

  /** `Object.keys(tagOccurrences)` after a rebuild: every tag of the active
      units once, in the order the loops first meet it. */
  lemma BuildIndexOrder(active: seq<Id>, st: LabelStore)
    ensures BuildIndex(active, st).order == Dedup(TagStream(active, st))
  {
    BuildFromOrder(NoTags, active, st);
    assert NoTags.order + TagStream(active, st) == TagStream(active, st);
  }

  lemma {:induction false} BuildFromOrder(ix: TagIndex, active: seq<Id>, st: LabelStore)
    requires Shape(ix)
    ensures BuildFrom(ix, active, st).order == Dedup(ix.order + TagStream(active, st))
    decreases active
  {
    if active == [] {
      assert ix.order + [] == ix.order;
      DedupOfNoDup(ix.order);
    } else {
      var x := active[0];
      var tags := TagEntries(LabelsOf(st, x));
      RecordAllOrder(ix, x, LabelsOf(st, x));
      BuildFromOrder(RecordAll(ix, x, LabelsOf(st, x)), active[1..], st);
      DedupAbsorb(ix.order + tags, TagStream(active[1..], st));
      ConcatAssoc(ix.order, tags, TagStream(active[1..], st));
    }
  }

  lemma {:induction false} RecordAllOrder(ix: TagIndex, id: Id, entries: seq<Entry>)
    requires Shape(ix)
    ensures Shape(RecordAll(ix, id, entries))
    ensures RecordAll(ix, id, entries).order == Dedup(ix.order + TagEntries(entries))
    decreases entries
  {
    if entries == [] {
      assert ix.order + [] == ix.order;
      DedupOfNoDup(ix.order);
    } else {
      var e, rest := entries[0], entries[1..];
      RecordOrder(ix, id, e);
      RecordAllOrder(Record(ix, id, e), id, rest);
      DedupAbsorb(ix.order + TagEntries([e]), TagEntries(rest));
      TagEntriesCons(entries);
      ConcatAssoc(ix.order, TagEntries([e]), TagEntries(rest));
    }
  }

  /** Recording one entry appends it to the order when it is a tag met for
      the first time. */
  lemma RecordOrder(ix: TagIndex, id: Id, e: Entry)
    requires Shape(ix)
    ensures Shape(Record(ix, id, e))
    ensures Record(ix, id, e).order == Dedup(ix.order + TagEntries([e]))
  {
    RecordShape(ix, id, e);
    DedupOfNoDup(ix.order);
    TagEntriesSingle(e);
    if IsNote(e) {
      assert ix.order + [] == ix.order;
    } else {
      DedupSnoc(ix.order, e);
    }
  }

  lemma TagEntriesSingle(e: Entry)
    ensures TagEntries([e]) == if IsNote(e) then [] else [e]
  {
    assert [e][1..] == [];
  }

  lemma TagEntriesCons(entries: seq<Entry>)
    requires entries != []
    ensures TagEntries(entries) == TagEntries([entries[0]]) + TagEntries(entries[1..])
  {
    assert [entries[0]][1..] == [];
  }

  // ---------------------------------------------------------------------
  // Notes do not reach the index

  lemma {:induction false} RecordAllIgnoresNotes(ix: TagIndex, id: Id, entries: seq<Entry>)
    ensures RecordAll(ix, id, entries) == RecordAll(ix, id, TagEntries(entries))
    decreases entries
  {
    if entries != [] {
      var e := entries[0];
      RecordAllIgnoresNotes(Record(ix, id, e), id, entries[1..]);
      var rest := TagEntries(entries[1..]);
      if IsNote(e) {
        assert Record(ix, id, e) == ix;
        assert TagEntries(entries) == rest;
      } else {
        var l := [e] + rest;
        assert TagEntries(entries) == l;
        assert l != [] && l[0] == e && l[1..] == rest;
        assert RecordAll(ix, id, l) == RecordAll(Record(ix, id, e), id, rest);
      }
    }
  }

  /** Two stores whose active units carry the same tags, in the same order,
      give the same index, whatever their notes. */
  lemma {:induction false} BuildFromSameTags(ix: TagIndex, active: seq<Id>, st: LabelStore, st': LabelStore)
    requires forall x :: x in active ==> TagEntries(LabelsOf(st, x)) == TagEntries(LabelsOf(st', x))
    ensures BuildFrom(ix, active, st) == BuildFrom(ix, active, st')
    decreases active
  {
    if active != [] {
      var x := active[0];
      RecordAllIgnoresNotes(ix, x, LabelsOf(st, x));
      RecordAllIgnoresNotes(ix, x, LabelsOf(st', x));
      BuildFromSameTags(RecordAll(ix, x, LabelsOf(st, x)), active[1..], st, st');
    }
  }

  // ---------------------------------------------------------------------
  // Display order

  /** Inserts `t` after every tag whose count is at least its own. */
  function InsertByCount(sorted: seq<Entry>, t: Entry, counts: map<Entry, int>): (r: seq<Entry>)
    ensures multiset(r) == multiset(sorted) + multiset{t}
  {
    if sorted == [] then [t]
    else if CountOf(counts, sorted[0]) < CountOf(counts, t) then [t] + sorted
    else
      assert sorted == [sorted[0]] + sorted[1..];
      [sorted[0]] + InsertByCount(sorted[1..], t, counts)
  }

  /** `Object.keys(tagOccurrences).sort((a, b) => tagOccurrences[b] - tagOccurrences[a])`:
      a stable sort by descending count. */
  function SortByCount(tags: seq<Entry>, counts: map<Entry, int>): (r: seq<Entry>)
    ensures multiset(r) == multiset(tags)
  {
    if tags == [] then []
    else
      assert tags == tags[..|tags| - 1] + [tags[|tags| - 1]];
      InsertByCount(SortByCount(tags[..|tags| - 1], counts), tags[|tags| - 1], counts)
  }

  /** The tag list the viewer shows next to a unit. */
  function DisplayOrder(ix: TagIndex): seq<Entry> {
    SortByCount(ix.order, ix.counts)
  }

  ghost predicate Descending(s: seq<Entry>, counts: map<Entry, int>) {
    forall i, j :: 0 <= i < j < |s| ==> CountOf(counts, s[i]) >= CountOf(counts, s[j])
  }

  /** The tags of `s` whose count is `c`, in order. */
  function WithCount(s: seq<Entry>, counts: map<Entry, int>, c: int): seq<Entry> {
    if s == [] then []
    else (if CountOf(counts, s[0]) == c then [s[0]] else []) + WithCount(s[1..], counts, c)
  }

  lemma {:induction false} WithCountConcat(a: seq<Entry>, b: seq<Entry>, counts: map<Entry, int>, c: int)
    ensures WithCount(a + b, counts, c) == WithCount(a, counts, c) + WithCount(b, counts, c)
  {
    if a != [] {
      var h := if CountOf(counts, a[0]) == c then [a[0]] else [];
      var wa, wb := WithCount(a[1..], counts, c), WithCount(b, counts, c);
      calc {
        WithCount(a + b, counts, c);
        { ConsWithCount(a[0], a[1..] + b, counts, c); assert a + b == [a[0]] + (a[1..] + b); }
        h + WithCount(a[1..] + b, counts, c);
        { WithCountConcat(a[1..], b, counts, c); }
        h + (wa + wb);
        { ConcatAssoc(h, wa, wb); }
        (h + wa) + wb;
      }
    } else {
      assert a + b == b;
    }
  }

  lemma {:induction false} WithCountAbove(s: seq<Entry>, counts: map<Entry, int>, c: int)
    requires Descending(s, counts)
    requires s != [] ==> CountOf(counts, s[0]) < c
    ensures WithCount(s, counts, c) == []
  {
    if s != [] {
      WithCountAbove(s[1..], counts, c);
    }
  }

  /** Every tag of `s` has a count of at most `b`. */
  ghost predicate CountsAtMost(s: seq<Entry>, counts: map<Entry, int>, b: int) {
    forall i :: 0 <= i < |s| ==> CountOf(counts, s[i]) <= b
  }

  lemma {:induction false} InsertByCountBound(sorted: seq<Entry>, t: Entry, counts: map<Entry, int>, b: int)
    requires CountsAtMost(sorted, counts, b) && CountOf(counts, t) <= b
    ensures CountsAtMost(InsertByCount(sorted, t, counts), counts, b)
  {
    if sorted != [] && CountOf(counts, sorted[0]) >= CountOf(counts, t) {
      InsertByCountBound(sorted[1..], t, counts, b);
    }
  }

  lemma DescendingCons(x: Entry, rest: seq<Entry>, counts: map<Entry, int>)
    requires Descending(rest, counts) && CountsAtMost(rest, counts, CountOf(counts, x))
    ensures Descending([x] + rest, counts)
  {
    var r := [x] + rest;
    forall i, j | 0 <= i < j < |r|
      ensures CountOf(counts, r[i]) >= CountOf(counts, r[j])
    {
      assert r[j] == rest[j - 1];
      if i > 0 {
        assert r[i] == rest[i - 1];
      }
    }
  }

  lemma {:induction false} InsertByCountDescending(sorted: seq<Entry>, t: Entry, counts: map<Entry, int>)
    requires Descending(sorted, counts)
    ensures Descending(InsertByCount(sorted, t, counts), counts)
  {
    if sorted == [] {
    } else if CountOf(counts, sorted[0]) < CountOf(counts, t) {
      assert CountsAtMost(sorted, counts, CountOf(counts, t));
      DescendingCons(t, sorted, counts);
    } else {
      var rest := sorted[1..];
      InsertByCountDescending(rest, t, counts);
      assert CountsAtMost(rest, counts, CountOf(counts, sorted[0]));
      InsertByCountBound(rest, t, counts, CountOf(counts, sorted[0]));
      DescendingCons(sorted[0], InsertByCount(rest, t, counts), counts);
    }
  }

  lemma {:induction false} InsertByCountStable(sorted: seq<Entry>, t: Entry, counts: map<Entry, int>, c: int)
    requires Descending(sorted, counts)
    ensures WithCount(InsertByCount(sorted, t, counts), counts, c)
            == WithCount(sorted, counts, c) + (if CountOf(counts, t) == c then [t] else [])
  {
    if sorted == [] {
    } else if CountOf(counts, sorted[0]) < CountOf(counts, t) {
      InsertInFrontStable(sorted, t, counts, c);
    } else {
      InsertByCountStable(sorted[1..], t, counts, c);
      InsertBehindStable(sorted, t, counts, c);
    }
  }

  lemma InsertInFrontStable(sorted: seq<Entry>, t: Entry, counts: map<Entry, int>, c: int)
    requires Descending(sorted, counts)
    requires sorted != [] && CountOf(counts, sorted[0]) < CountOf(counts, t)
    ensures WithCount([t] + sorted, counts, c)
            == WithCount(sorted, counts, c) + (if CountOf(counts, t) == c then [t] else [])
  {
    ConsWithCount(t, sorted, counts, c);
    if CountOf(counts, t) == c {
      WithCountAbove(sorted, counts, c);
    }
  }

  lemma InsertBehindStable(sorted: seq<Entry>, t: Entry, counts: map<Entry, int>, c: int)
    requires sorted != [] && CountOf(counts, sorted[0]) >= CountOf(counts, t)
    requires WithCount(InsertByCount(sorted[1..], t, counts), counts, c)
             == WithCount(sorted[1..], counts, c) + (if CountOf(counts, t) == c then [t] else [])
    ensures WithCount(InsertByCount(sorted, t, counts), counts, c)
            == WithCount(sorted, counts, c) + (if CountOf(counts, t) == c then [t] else [])
  {
    var rest := sorted[1..];
    var ins := InsertByCount(rest, t, counts);
    var tail := if CountOf(counts, t) == c then [t] else [];
    var h := if CountOf(counts, sorted[0]) == c then [sorted[0]] else [];
    var wr := WithCount(rest, counts, c);
    calc {
      WithCount(InsertByCount(sorted, t, counts), counts, c);
      { assert InsertByCount(sorted, t, counts) == [sorted[0]] + ins; }
      WithCount([sorted[0]] + ins, counts, c);
      { ConsWithCount(sorted[0], ins, counts, c); }
      h + (wr + tail);
      { ConcatAssoc(h, wr, tail); }
      (h + wr) + tail;
      { ConsWithCount(sorted[0], rest, counts, c); assert sorted == [sorted[0]] + rest; }
      WithCount(sorted, counts, c) + tail;
    }
  }

  lemma ConsWithCount(x: Entry, s: seq<Entry>, counts: map<Entry, int>, c: int)
    ensures WithCount([x] + s, counts, c) == (if CountOf(counts, x) == c then [x] else []) + WithCount(s, counts, c)
  {
    assert ([x] + s)[1..] == s;
  }

  /** The display order lists every tag once, highest count first, and tags
      with equal counts keep the order in which the index first met them: for
      each count value, the tags with that count appear in the same order
      before and after the sort. */
  lemma SortByCountSpec(tags: seq<Entry>, counts: map<Entry, int>)
    ensures Descending(SortByCount(tags, counts), counts)
    ensures forall c :: WithCount(SortByCount(tags, counts), counts, c) == WithCount(tags, counts, c)
  {
    SortByCountDescending(tags, counts);
    forall c
      ensures WithCount(SortByCount(tags, counts), counts, c) == WithCount(tags, counts, c)
    {
      SortByCountStable(tags, counts, c);
    }
  }

  lemma {:induction false} SortByCountDescending(tags: seq<Entry>, counts: map<Entry, int>)
    ensures Descending(SortByCount(tags, counts), counts)
  {
    if tags != [] {
      var init := tags[..|tags| - 1];
      SortByCountDescending(init, counts);
      InsertByCountDescending(SortByCount(init, counts), tags[|tags| - 1], counts);
    }
  }

  lemma {:induction false} SortByCountStable(tags: seq<Entry>, counts: map<Entry, int>, c: int)
    ensures WithCount(SortByCount(tags, counts), counts, c) == WithCount(tags, counts, c)
  {
    if tags != [] {
      var init, last := tags[..|tags| - 1], tags[|tags| - 1];
      var sorted := SortByCount(init, counts);
      SortByCountStable(init, counts, c);
      SortByCountDescending(init, counts);
      InsertByCountStable(sorted, last, counts, c);
      WithCountSnoc(init, last, counts, c);
      assert tags == init + [last];
    }
  }

  lemma WithCountSnoc(init: seq<Entry>, last: Entry, counts: map<Entry, int>, c: int)
    ensures WithCount(init + [last], counts, c)
            == WithCount(init, counts, c) + (if CountOf(counts, last) == c then [last] else [])
  {
    WithCountConcat(init, [last], counts, c);
    assert WithCount([last], counts, c) == (if CountOf(counts, last) == c then [last] else []) + WithCount([], counts, c);
  }
}
