/** The viewer's session: the label store, the active units a search left,
    the tag index over those units, and the cursor on the current unit. Each
    user action of the script is a function from session to session, and
    `Valid` is the state every action keeps. */
module Viewer {
  import opened Options
  import opened Text
  import opened SeqSet
  import opened Labels
  import opened Tags
  import opened Query

  /** `currentUnitId` and `currentUnitIndex`. */
  datatype Cursor = Cursor(id: Option<Id>, index: nat)

  /** The script's state: `neuronLabels` with its key order, `activeUnits`
      (whose entry lists are those of the store), the tag index
      (`tagsDictionary` and `tagOccurrences`) and the cursor. */
  datatype Session = Session(store: LabelStore, active: seq<Id>, tags: TagIndex, cursor: Cursor)

  /** With no active unit there is no current unit; otherwise the cursor's
      index is in range and its id is the active unit at that index. */
  ghost predicate CursorOk(c: Cursor, active: seq<Id>) {
    if active == [] then c.id.None? else c.index < |active| && c.id == Some(active[c.index])
  }

  /** The state the actions keep: a well-formed store, active units listed
      once each and all in the store, the tag index equal to a fresh build
      over the active units, and a cursor that agrees with the active list. */
  ghost predicate Valid(s: Session) {
    && ValidStore(s.store)
    && NoDup(s.active)
    && (forall x :: x in s.active ==> x in s.store.labels)
    && s.tags == BuildIndex(s.active, s.store)
    && CursorOk(s.cursor, s.active)
  }

  /** `if (currentUnitId)`: a current unit whose id is not the empty string. */
  predicate Truthy(id: Option<Id>) {
    id.Some? && id.value != []
  }

  // ---------------------------------------------------------------------
  // Loading and searching

  /** `fetchUnitLabels` with `resetActiveUnits`, and the empty search: every
      unit active, in key order, the cursor on the first. */
  function Load(st: LabelStore): (s: Session)
    ensures ValidStore(st) ==> Valid(s)
    ensures ValidStore(st) ==> forall x :: x in s.active <==> x in st.labels
    ensures s.store == st && s.active == st.keys && s.cursor.index == 0
    ensures s.active != [] ==> s.cursor.id == Some(s.active[0])
  {
    Session(st, st.keys, BuildIndex(st.keys, st),
            if st.keys == [] then Cursor(None, 0) else Cursor(Some(st.keys[0]), 0))
  }

  /** The session after a search, and whether the search was refused with
      the "Invalid search format" alert. */
  datatype Searched = Searched(session: Session, rejected: bool)

  /** The active list a non-empty search leaves: the index is rebuilt over
      it; the cursor goes to its first unit, or to no unit when it is empty
      (`currentUnitIndex` then keeps its old value). */
  function Activate(s: Session, act: seq<Id>): Session {
    Session(s.store, act, BuildIndex(act, s.store),
            if act == [] then Cursor(None, s.cursor.index) else Cursor(Some(act[0]), 0))
  }

  /** `applySearch`. */
  function Search(s: Session, text: string): (r: Searched)
    ensures r.rejected <==> ParseSearch(text).Failure?
    ensures r.rejected ==> r.session == s
    ensures r.session.store == s.store
    ensures Valid(s) ==> Valid(r.session)
    ensures AllWhitespace(text) ==> r.session.active == s.store.keys && r.session.cursor.index == 0
    ensures !r.rejected && r.session.active != [] ==> r.session.cursor == Cursor(Some(r.session.active[0]), 0)
    ensures !r.rejected && !AllWhitespace(text) && r.session.active == [] ==> r.session.cursor == Cursor(None, s.cursor.index)
    ensures var p := ParseSearch(text);
            p.Success? && p.value.Filter? ==> r.session.active == Evaluate(s.store, s.tags, p.value.head, p.value.tail)
  {
    var p := ParseSearch(text);
    if p.Failure? then Searched(s, true)
    else if p.value.ShowAll? then Searched(Load(s.store), false)
    else
      SearchKeepsValid(s, p.value.head, p.value.tail);
      Searched(Activate(s, Evaluate(s.store, s.tags, p.value.head, p.value.tail)), false)
  }

  lemma SearchKeepsValid(s: Session, head: Clause, tail: seq<Clause>)
    ensures Valid(s) ==> Valid(Activate(s, Evaluate(s.store, s.tags, head, tail)))
  {
    if Valid(s) {
      EvaluateInStore(s, head, tail);
    }
  }

  /** In a valid session every clause selects units of the store. */
  lemma ClauseSetInStore(s: Session, q: string)
    requires Valid(s)
    ensures forall x :: x in ClauseSet(s.store, s.tags, q) ==> x in s.store.labels
  {
    forall x | x in ClauseSet(s.store, s.tags, q)
      ensures x in s.store.labels
    {
      if !IsQuoted(q) {
        BareClauseMeaning(s.store, s.active, q, x);
      }
    }
  }

  lemma EvaluateInStore(s: Session, head: Clause, tail: seq<Clause>)
    requires Valid(s)
    ensures forall x :: x in Evaluate(s.store, s.tags, head, tail) ==> x in s.store.labels
  {
    ClauseSetInStore(s, head.text);
    forall x | x in Evaluate(s.store, s.tags, head, tail)
      ensures x in s.store.labels
    {
      if x !in Start(s.store, s.tags, head) {
        var c :| c in tail && c.op == Or && x in ClauseSet(s.store, s.tags, c.text);
        ClauseSetInStore(s, c.text);
      }
    }
  }

  /** A search for one plain tag makes active, in key order, exactly the
      units that carry it among the units that were active before the
      search: the index it consults was built over those. A note text finds
      nothing. */
  lemma SearchOneTag(s: Session, t: string)
    requires Valid(s) && Plain(t) && !IsQuoted(t)
    ensures Search(s, t).session.active
            == Keep(s.store.keys, x => x in s.active && !IsNote(t) && t in LabelsOf(s.store, x))
  {
    var head := Clause(And, t);
    var act := Evaluate(s.store, s.tags, head, []);
    OneTagSearch(s, t);
    var sel := ClauseSet(s.store, s.tags, t);
    assert act == Intersect(Dedup(s.store.keys), sel);
    DedupOfNoDup(s.store.keys);
    IntersectIsKeep(s.store.keys, sel, x => x in sel);
    forall x
      ensures (x in sel) == (x in s.active && !IsNote(t) && t in LabelsOf(s.store, x))
    {
      BareClauseMeaning(s.store, s.active, t, x);
    }
    KeepSame(s.store.keys, x => x in sel, x => x in s.active && !IsNote(t) && t in LabelsOf(s.store, x));
  }

  /** A search for one plain text is the clause `&` that text alone. */
  lemma OneTagSearch(s: Session, t: string)
    requires Plain(t)
    ensures Search(s, t).session.active == Evaluate(s.store, s.tags, Clause(And, t), [])
  {
    OneTagParses(t);
  }

  lemma OneTagParses(t: string)
    requires Plain(t)
    ensures ParseSearch(t) == Success(Filter(Clause(And, t), []))
  {
    ImplicitAnd(t, []);
    assert t + Render([]) == t;
    ParseRender(Clause(And, t), []);
  }

  // ---------------------------------------------------------------------
  // Moving between units

  /** `switchToNextUnit`: one step forward, wrapping to the first unit. */
  function Next(s: Session): (r: Session)
    ensures r.store == s.store && r.active == s.active && r.tags == s.tags
    ensures Valid(s) ==> Valid(r)
    ensures s.active != [] ==> r.cursor.index == (s.cursor.index + 1) % |s.active|
    ensures s.active != [] ==> CursorOk(r.cursor, r.active)
    ensures s.active == [] ==> r == s
  {
    if s.active == [] then s
    else
      var i := (s.cursor.index + 1) % |s.active|;
      s.(cursor := Cursor(Some(s.active[i]), i))
  }

  /** `switchToPreviousUnit`: one step back, wrapping to the last unit. */
  function Previous(s: Session): (r: Session)
    ensures r.store == s.store && r.active == s.active && r.tags == s.tags
    ensures Valid(s) ==> Valid(r)
    ensures s.active != [] ==> r.cursor.index == (s.cursor.index - 1 + |s.active|) % |s.active|
    ensures s.active != [] ==> CursorOk(r.cursor, r.active)
    ensures s.active == [] ==> r == s
  {
    if s.active == [] then s
    else
      var i := (s.cursor.index - 1 + |s.active|) % |s.active|;
      s.(cursor := Cursor(Some(s.active[i]), i))
  }

  lemma StepBack(i: nat, n: nat)
    requires i < n
    ensures ((i + 1) % n - 1 + n) % n == i
    ensures ((i - 1 + n) % n + 1) % n == i
  {
    if i + 1 < n {
      ModBelow(i + 1, n);
      ModUnique(i + n, n, 1, i);
    } else {
      ModUnique(n, n, 1, 0);
      ModBelow(n - 1, n);
    }
    if i == 0 {
      ModBelow(n - 1, n);
      ModUnique(n, n, 1, 0);
    } else {
      ModUnique(i - 1 + n, n, 1, i - 1);
      ModBelow(i, n);
    }
  }

  lemma ModBelow(a: int, n: int)
    requires 0 <= a < n
    ensures a % n == a
  {
  }

  lemma {:induction false} MulAtLeast(k: int, n: int)
    requires k >= 1 && n > 0
    ensures k * n >= n
  {
    if k > 1 {
      MulAtLeast(k - 1, n);
      assert k * n == (k - 1) * n + n;
    }
  }

  lemma MulSign(k: int, n: int)
    requires n > 0
    ensures k >= 1 ==> k * n >= n
    ensures k <= -1 ==> k * n <= -n
  {
    if k >= 1 {
      MulAtLeast(k, n);
    } else if k <= -1 {
      MulAtLeast(-k, n);
      assert (-k) * n == -(k * n);
    }
  }

  /** The remainder is the unique `r` with `a == q * n + r`, `0 <= r < n`. */
  lemma ModUnique(a: int, n: int, q: int, r: int)
    requires n > 0 && a == q * n + r && 0 <= r < n
    ensures a % n == r
  {
    var q', r' := a / n, a % n;
    assert a == q' * n + r';
    assert (q - q') * n == r' - r;
    MulSign(q - q', n);
  }

  /** Going back undoes going forward. */
  lemma PreviousUndoesNext(s: Session)
    requires Valid(s)
    ensures Previous(Next(s)) == s
  {
    if s.active != [] {
      StepBack(s.cursor.index, |s.active|);
    }
  }

  /** Going forward undoes going back. */
  lemma NextUndoesPrevious(s: Session)
    requires Valid(s)
    ensures Next(Previous(s)) == s
  {
    if s.active != [] {
      StepBack(s.cursor.index, |s.active|);
    }
  }

  /** `k` presses of the "next" key. */
  function Forward(s: Session, k: nat): Session {
    if k == 0 then s else Next(Forward(s, k - 1))
  }

  /** `k` steps forward land `k` places further on, modulo the number of
      active units. */
  lemma {:induction false} ForwardIndex(s: Session, k: nat)
    requires s.active != [] && CursorOk(s.cursor, s.active)
    ensures Forward(s, k).cursor.index == (s.cursor.index + k) % |s.active|
  {
    if k > 0 {
      var prev := Forward(s, k - 1);
      ForwardKeeps(s, k - 1);
      ForwardIndex(s, k - 1);
      IndexStep(prev.cursor.index, Next(prev).cursor.index, s.cursor.index + (k - 1), |s.active|);
    } else {
      ModBelow(s.cursor.index, |s.active|);
    }
  }

  /** Moving forward only moves the cursor, and keeps it on an active unit. */
  lemma {:induction false} ForwardKeeps(s: Session, k: nat)
    requires s.active != [] && CursorOk(s.cursor, s.active)
    ensures CursorOk(Forward(s, k).cursor, s.active)
    ensures Forward(s, k).active == s.active && Forward(s, k).store == s.store
    ensures Forward(s, k).tags == s.tags
  {
    if k > 0 {
      ForwardKeeps(s, k - 1);
    }
  }

  /** Moving forward keeps the session valid. */
  lemma {:induction false} ForwardValid(s: Session, k: nat)
    requires Valid(s)
    ensures Valid(Forward(s, k))
  {
    if k > 0 {
      ForwardValid(s, k - 1);
    }
  }

  lemma IndexStep(a: int, b: int, m: nat, n: nat)
    requires n > 0 && a == m % n && b == (a + 1) % n
    ensures b == (m + 1) % n
  {
    ModStep(m, n);
  }

  lemma ModWrap(i: int, n: int)
    requires 0 <= i < n
    ensures (i + n) % n == i
  {
    ModUnique(i + n, n, 1, i);
  }

  lemma ModStep(m: nat, n: nat)
    requires n > 0
    ensures (m % n + 1) % n == (m + 1) % n
  {
    var q, r := m / n, m % n;
    assert m == q * n + r && 0 <= r < n;
    if r + 1 < n {
      ModBelow(r + 1, n);
      ModUnique(m + 1, n, q, r + 1);
    } else {
      ModUnique(r + 1, n, 1, 0);
      MulNext(q, n);
      ModUnique(m + 1, n, q + 1, 0);
    }
  }

  lemma MulNext(q: int, n: int)
    ensures (q + 1) * n == q * n + n
  {
  }

  /** `k` steps forward from a cursor on an active unit change the cursor
      and nothing else. */
  lemma ForwardAt(s: Session, k: nat)
    requires s.active != [] && CursorOk(s.cursor, s.active)
    ensures var j := (s.cursor.index + k) % |s.active|;
            0 <= j < |s.active| && Forward(s, k) == s.(cursor := Cursor(Some(s.active[j]), j))
  {
    ForwardIndex(s, k);
    ForwardKeeps(s, k);
  }

  /** As many steps forward as there are active units come back to the
      starting unit. */
  lemma ForwardCycle(s: Session)
    requires CursorOk(s.cursor, s.active)
    ensures Forward(s, |s.active|) == s
  {
    if s.active != [] {
      WholeTurn(s, |s.active|);
    }
  }

  lemma WholeTurn(s: Session, n: nat)
    requires s.active != [] && CursorOk(s.cursor, s.active) && n == |s.active|
    ensures Forward(s, n) == s
  {
    ModWrap(s.cursor.index, n);
    ForwardAt(s, n);
  }

  // ---------------------------------------------------------------------
  // Editing the current unit

  /** `addTag`: the trimmed text of the search box is appended to the
      current unit's entries unless it is already there; the index is
      rebuilt. Nothing happens for a blank text or when no unit is current. */
  function AddTag(s: Session, input: string): (r: Session)
    ensures r.active == s.active && r.cursor == s.cursor
    ensures Valid(s) ==> Valid(r)
    ensures Valid(s) ==> r.store.keys == s.store.keys && r.store.labels.Keys == s.store.labels.Keys
    ensures var t := Trim(input);
            if t != [] && Truthy(s.cursor.id) then
              && LabelsOf(r.store, s.cursor.id.value) == WithTag(LabelsOf(s.store, s.cursor.id.value), t)
              && forall x :: x != s.cursor.id.value ==> LabelsOf(r.store, x) == LabelsOf(s.store, x)
            else r == s
  {
    var t := Trim(input);
    if t == [] || !Truthy(s.cursor.id) then s
    else
      var id := s.cursor.id.value;
      var entries := LabelsOf(s.store, id);
      if t in entries then s
      else
        var st := Put(s.store, id, entries + [t]);
        s.(store := st, tags := BuildIndex(s.active, st))
  }

  /** After adding a tag, the current unit is listed under it in the index,
      and the tag's count has grown by one. */
  lemma AddTagIndexes(s: Session, input: string)
    requires Valid(s) && Truthy(s.cursor.id)
    requires Trim(input) != [] && !IsNote(Trim(input))
    requires Trim(input) !in LabelsOf(s.store, s.cursor.id.value)
    ensures var t, r := Trim(input), AddTag(s, input);
            && t in r.tags.units && s.cursor.id.value in r.tags.units[t]
            && CountOf(r.tags.counts, t) == CountOf(s.tags.counts, t) + 1
  {
    var t, r, id := Trim(input), AddTag(s, input), s.cursor.id.value;
    assert id in s.active;
    assert t in LabelsOf(r.store, id);
    BuildIndexSpec(s.active, r.store);
    AddedOccurrence(s.active, s.store, r.store, id, t);
    CountOfIndex(s.active, s.store, t);
    CountOfIndex(s.active, r.store, t);
  }

  /** Appending `t` to one active unit's list adds one to its total. */
  lemma {:induction false} AddedOccurrence(active: seq<Id>, st: LabelStore, st': LabelStore, id: Id, t: Entry)
    requires NoDup(active)
    requires LabelsOf(st', id) == LabelsOf(st, id) + [t]
    requires forall x :: x != id ==> LabelsOf(st', x) == LabelsOf(st, x)
    ensures TotalOccurrences(t, active, st') == TotalOccurrences(t, active, st) + (if id in active then 1 else 0)
  {
    if active != [] {
      var init, x := active[..|active| - 1], active[|active| - 1];
      assert active == init + [x];
      NoDupSnoc(init, x);
      AddedOccurrence(init, st, st', id, t);
      if x == id {
        OccurrencesSnoc(t, LabelsOf(st, id), t);
      }
    }
  }

  /** `removeTag` with the first-occurrence removal (see `Labels.RemoveFirst`
      and `Labels.RemoveTagAsWritten`); the index is rebuilt. A tag the unit
      does not carry changes nothing. */
  function RemoveTag(s: Session, id: Id, t: Entry): (r: Session)
    ensures r.active == s.active && r.cursor == s.cursor
    ensures (Valid(s) && Some(id) == s.cursor.id) ==> Valid(r)
    ensures r.store.keys == s.store.keys && r.store.labels.Keys == s.store.labels.Keys
    ensures LabelsOf(r.store, id) == RemoveFirst(LabelsOf(s.store, id), t)
    ensures forall x :: x != id ==> LabelsOf(r.store, x) == LabelsOf(s.store, x)
  {
    var entries := LabelsOf(s.store, id);
    if t !in entries then s
    else
      var st := Put(s.store, id, RemoveFirst(entries, t));
      s.(store := st, tags := BuildIndex(s.active, st))
  }

  /** `removeNote`: the note whose rank is the number after `%`, counting
      from 1, is removed from the unit's entries. The index is not rebuilt,
      and does not need to be: notes never reach it. */
  function RemoveNote(s: Session, id: Id, input: string): (r: Session)
    ensures r.active == s.active && r.cursor == s.cursor && r.tags == s.tags
    ensures (Valid(s) && Some(id) == s.cursor.id) ==> Valid(r)
    ensures r.store.keys == s.store.keys && r.store.labels.Keys == s.store.labels.Keys
    ensures forall x :: x != id ==> LabelsOf(r.store, x) == LabelsOf(s.store, x)
    ensures match NoteRank(input)
            case None => r == s
            case Some(k) =>
              var e := LabelsOf(s.store, id);
              if 0 <= k < NoteCount(e) then
                && LabelsOf(r.store, id) == RemoveNthNote(e, k)
                && |LabelsOf(r.store, id)| == |e| - 1
                && Notes(LabelsOf(r.store, id)) == Notes(e)[..k] + Notes(e)[k + 1..]
                && TagEntries(LabelsOf(r.store, id)) == TagEntries(e)
              else r == s
  {
    match NoteRank(input)
    case None => s
    case Some(k) =>
      if 0 <= k < NoteCount(LabelsOf(s.store, id)) then
        NoteRemoval(s, id, k);
        s.(store := Put(s.store, id, RemoveNthNote(LabelsOf(s.store, id), k)))
      else s
  }

  /** Removing a note keeps the session valid: notes never reach the index. */
  lemma NoteRemoval(s: Session, id: Id, k: int)
    requires 0 <= k < NoteCount(LabelsOf(s.store, id))
    ensures var e := LabelsOf(s.store, id);
            var r := s.(store := Put(s.store, id, RemoveNthNote(e, k)));
            && |LabelsOf(r.store, id)| == |e| - 1
            && Notes(LabelsOf(r.store, id)) == Notes(e)[..k] + Notes(e)[k + 1..]
            && TagEntries(LabelsOf(r.store, id)) == TagEntries(e)
            && (Valid(s) && Some(id) == s.cursor.id ==> Valid(r))
  {
    var e := LabelsOf(s.store, id);
    RemoveNthNoteSpec(e, k);
    var st := Put(s.store, id, RemoveNthNote(e, k));
    assert forall x :: x in s.active ==> TagEntries(LabelsOf(s.store, x)) == TagEntries(LabelsOf(st, x));
    BuildFromSameTags(NoTags, s.active, s.store, st);
    if Valid(s) && Some(id) == s.cursor.id {
      assert id in s.active;
    }
  }

  /** `removeTagOrNote`: a trimmed text starting with `%` removes a note by
      rank, any other text removes that tag. */
  function RemoveTagOrNote(s: Session, input: string): (r: Session)
    ensures r.active == s.active && r.cursor == s.cursor
    ensures Valid(s) ==> Valid(r)
    ensures Trim(input) == [] || !Truthy(s.cursor.id) ==> r == s
  {
    var t := Trim(input);
    if t == [] || !Truthy(s.cursor.id) then s
    else if IsNote(t) then RemoveNote(s, s.cursor.id.value, t)
    else RemoveTag(s, s.cursor.id.value, t)
  }

  /** Adding a tag the current unit does not carry and then removing the
      same text restores the session exactly. */
  lemma AddThenRemoveTag(s: Session, input: string)
    requires Valid(s) && Truthy(s.cursor.id)
    requires Trim(input) != [] && !IsNote(Trim(input))
    requires Trim(input) !in LabelsOf(s.store, s.cursor.id.value)
    ensures RemoveTagOrNote(AddTag(s, input), input) == s
  {
    var t, id := Trim(input), s.cursor.id.value;
    var e := LabelsOf(s.store, id);
    assert id in s.store.labels;
    AddThenRemove(e, t);
    var added := AddTag(s, input);
    assert added.store == Put(s.store, id, e + [t]);
    PutRestore(s.store, id, e + [t]);
  }

  // ---------------------------------------------------------------------
  // Folder names

  /** `appendAllFolderNamesToNeuronLabels`: every folder name gets an entry
      list; when one was added the page reloads the store from the start. */
  function FillAndReload(s: Session, names: seq<Id>): (r: Session)
    ensures Valid(s) ==> Valid(r)
    ensures Valid(s) ==> forall n :: n in names ==> n in r.store.labels
    ensures (forall n :: n in names ==> n in s.store.labels) ==> r == s
    ensures r.store == Fill(s.store, names).store
    ensures Fill(s.store, names).updated ==> r.active == r.store.keys && r.cursor.index == 0
  {
    var f := Fill(s.store, names);
    if f.updated then
      FillKeepsValid(s.store, names);
      Load(f.store)
    else
      FillNothingNew(s.store, names);
      s
  }

  lemma FillKeepsValid(st: LabelStore, names: seq<Id>)
    ensures ValidStore(st) ==> ValidStore(Fill(st, names).store)
  {
    if ValidStore(st) {
      FillKeys(st, names);
    }
  }

  // ---------------------------------------------------------------------
  // What is shown

  /** One tag next to the current unit: its text, its count, and whether the
      current unit carries it. */
  datatype Badge = Badge(tag: Entry, count: int, carried: bool)

  datatype View = NoUnitSelected | UnitView(id: Id, position: nat, total: nat, badges: seq<Badge>, notes: seq<string>)

  function Badges(order: seq<Entry>, counts: map<Entry, int>, entries: seq<Entry>): (r: seq<Badge>)
    ensures |r| == |order|
    ensures forall i :: 0 <= i < |r| ==> r[i].tag == order[i] && r[i].count == CountOf(counts, order[i])
                                         && (r[i].carried <==> order[i] in entries)
  {
    if order == [] then []
    else [Badge(order[0], CountOf(counts, order[0]), order[0] in entries)] + Badges(order[1..], counts, entries)
  }

  /** `displayCurrentUnit`: every tag of the index with its count, most
      frequent first, the carried ones marked, and the unit's notes. */
  function Show(s: Session): (v: View) {
    if !Truthy(s.cursor.id) then NoUnitSelected
    else
      var id := s.cursor.id.value;
      var entries := LabelsOf(s.store, id);
      UnitView(id, s.cursor.index + 1, |s.active|,
               Badges(DisplayOrder(s.tags), s.tags.counts, entries), Notes(entries))
  }

  /** The view of a current unit shows its notes, and a badge per tag
      counted over every occurrence among the active units; notes are never
      shown as badges. */
  lemma ShowCounts(s: Session)
    requires Valid(s) && Truthy(s.cursor.id)
    ensures var v := Show(s);
            && v.UnitView?
            && v.notes == Notes(LabelsOf(s.store, s.cursor.id.value))
            && forall i :: 0 <= i < |v.badges| ==>
                 && !IsNote(v.badges[i].tag)
                 && v.badges[i].count == TotalOccurrences(v.badges[i].tag, s.active, s.store)
                 && (v.badges[i].carried <==> v.badges[i].tag in LabelsOf(s.store, s.cursor.id.value))
  {
    var order := DisplayOrder(s.tags);
    DisplayOrderMembers(s.active, s.store);
    forall i | 0 <= i < |order|
      ensures !IsNote(order[i]) && CountOf(s.tags.counts, order[i]) == TotalOccurrences(order[i], s.active, s.store)
    {
      assert order[i] in order;
      CountOfIndex(s.active, s.store, order[i]);
    }
  }

  /** Badges name distinct tags, most frequent first. */
  lemma ShowOrder(s: Session)
    requires Valid(s) && Truthy(s.cursor.id)
    ensures var b := Show(s).badges;
            forall i, j :: 0 <= i < j < |b| ==> b[i].tag != b[j].tag && b[i].count >= b[j].count
  {
    BuildIndexMatchesReference(s.active, s.store);
    DisplayOrderDistinct(s.tags);
    SortByCountSpec(s.tags.order, s.tags.counts);
  }

  /** Exactly the tags carried by some active unit get a badge. */
  lemma ShowCovers(s: Session)
    requires Valid(s) && Truthy(s.cursor.id)
    ensures var b := Show(s).badges;
            forall t :: (exists i :: 0 <= i < |b| && b[i].tag == t)
                          <==> !IsNote(t) && exists x :: x in s.active && t in LabelsOf(s.store, x)
  {
    DisplayOrderMembers(s.active, s.store);
    BadgeTags(DisplayOrder(s.tags), Show(s).badges);
  }

  lemma DisplayOrderMembers(active: seq<Id>, st: LabelStore)
    ensures forall t :: t in DisplayOrder(BuildIndex(active, st))
                        <==> !IsNote(t) && exists x :: x in active && t in LabelsOf(st, x)
  {
    var ix := BuildIndex(active, st);
    BuildIndexSpec(active, st);
    BuildIndexMatchesReference(active, st);
    forall t
      ensures t in DisplayOrder(ix) <==> t in ix.order
    {
      assert t in multiset(DisplayOrder(ix)) <==> t in multiset(ix.order);
    }
  }

  lemma DisplayOrderDistinct(ix: TagIndex)
    requires NoDup(ix.order)
    ensures forall i, j :: 0 <= i < j < |DisplayOrder(ix)| ==> DisplayOrder(ix)[i] != DisplayOrder(ix)[j]
  {
    NoDupMultiset(ix.order);
    NoDupMultiset(DisplayOrder(ix));
    NoDupIndices(DisplayOrder(ix));
  }

  lemma BadgeTags(order: seq<Entry>, b: seq<Badge>)
    requires |b| == |order| && forall i :: 0 <= i < |b| ==> b[i].tag == order[i]
    ensures forall t :: (exists i :: 0 <= i < |b| && b[i].tag == t) <==> t in order
  {
    forall t
      ensures (exists i :: 0 <= i < |b| && b[i].tag == t) <==> t in order
    {
      if t in order {
        var i :| 0 <= i < |order| && order[i] == t;
        assert b[i].tag == t;
      }
      if exists i :: 0 <= i < |b| && b[i].tag == t {
        var i :| 0 <= i < |b| && b[i].tag == t;
        assert order[i] == t;
      }
    }
  }
}
