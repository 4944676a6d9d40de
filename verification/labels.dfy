/** The label store: each unit id maps to its ordered list of entries. An
    entry that starts with `%` is a note, every other entry is a tag. This
    module holds the edits the viewer makes to one unit's list (add a tag,
    remove a tag, remove the k-th note), the note list shown for a unit, and
    the merge that gives every image folder a (possibly empty) entry list. */
module Labels {
  import opened Options
  import opened Text
  import opened SeqSet

  type Id = string
  type Entry = string

  /** `label.startsWith('%')`. */
  predicate IsNote(e: Entry) {
    |e| > 0 && e[0] == '%'
  }

  /** The unit ids in `Object.keys` order, and the entry list of each. */
  datatype LabelStore = LabelStore(keys: seq<Id>, labels: map<Id, seq<Entry>>)

  /** Keys are listed once each, and exactly the keys of the map are listed. */
  ghost predicate ValidStore(st: LabelStore) {
    NoDup(st.keys) && forall k :: k in st.labels <==> k in st.keys
  }

  /** The entry list of `id`, or the empty list for an id that is not a key. */
  function LabelsOf(st: LabelStore, id: Id): seq<Entry> {
    if id in st.labels then st.labels[id] else []
  }

  /** `neuronLabels[id] = entries`: a new id becomes the last key. */
  function Put(st: LabelStore, id: Id, entries: seq<Entry>): (r: LabelStore)
    ensures LabelsOf(r, id) == entries
    ensures forall k :: k != id ==> LabelsOf(r, k) == LabelsOf(st, k)
    ensures r.labels.Keys == st.labels.Keys + {id}
    ensures id in st.labels ==> r.keys == st.keys
    ensures ValidStore(st) ==> ValidStore(r)
  {
    if id in st.labels then LabelStore(st.keys, st.labels[id := entries])
    else
      NoDupSnoc(st.keys, id);
      LabelStore(st.keys + [id], st.labels[id := entries])
  }

  /** A new id is appended to the key order, behind every existing key. */
  lemma PutNewLast(st: LabelStore, id: Id, entries: seq<Entry>)
    ensures id !in st.labels ==> Put(st, id, entries).keys == st.keys + [id]
  {
  }

  /** Writing a unit's old list back over a newer one restores the store. */
  lemma PutRestore(st: LabelStore, id: Id, entries: seq<Entry>)
    requires id in st.labels
    ensures Put(Put(st, id, entries), id, st.labels[id]) == st
  {
    var mid := Put(st, id, entries);
    assert mid.labels[id := st.labels[id]] == st.labels;
  }

  // ---------------------------------------------------------------------
  // Tags on one unit

  /** Number of times `t` occurs in `entries`. */
  function Occurrences(t: Entry, entries: seq<Entry>): nat {
    if entries == [] then 0
    else Occurrences(t, entries[..|entries| - 1]) + (if entries[|entries| - 1] == t then 1 else 0)
  }

  lemma {:induction false} OccurrencesPositive(t: Entry, entries: seq<Entry>)
    ensures Occurrences(t, entries) > 0 <==> t in entries
  {
    if entries != [] {
      var init := entries[..|entries| - 1];
      assert entries == init + [entries[|entries| - 1]];
      OccurrencesPositive(t, init);
    }
  }

  /** The list after `addTag`: the tag is appended unless it is already present. */
  function WithTag(entries: seq<Entry>, t: Entry): (r: seq<Entry>)
    ensures t in r
    ensures t in entries ==> r == entries
    ensures t !in entries ==> |r| == |entries| + 1 && r[..|entries|] == entries
  {
    if t in entries then entries else entries + [t]
  }

  /** `entries.indexOf(t)` for a `t` that occurs. */
  function FirstIndex(entries: seq<Entry>, t: Entry): (i: nat)
    requires t in entries
    ensures i < |entries| && entries[i] == t && t !in entries[..i]
  {
    if entries[0] == t then 0
    else
      var j := FirstIndex(entries[1..], t);
      assert entries[..j + 1] == [entries[0]] + entries[1..][..j];
      j + 1
  }

  /** `entries.splice(entries.indexOf(t), 1)` when `t` occurs, and nothing
      otherwise: the first occurrence of `t` goes, every other entry stays in
      order. */
  function RemoveFirst(entries: seq<Entry>, t: Entry): (r: seq<Entry>)
    ensures t !in entries ==> r == entries
    ensures t in entries ==> |r| == |entries| - 1
                             && multiset(r) == multiset(entries) - multiset{t}
    ensures t in entries ==> exists i :: 0 <= i < |entries| && entries[i] == t
                                         && t !in entries[..i] && r == entries[..i] + entries[i + 1..]
  {
    if t in entries then
      var i := FirstIndex(entries, t);
      assert entries == entries[..i] + [t] + entries[i + 1..];
      entries[..i] + entries[i + 1..]
    else entries
  }

  /** Adding a tag the unit does not carry and then removing it restores the
      list exactly. */
  lemma AddThenRemove(entries: seq<Entry>, t: Entry)
    requires t !in entries
    ensures RemoveFirst(WithTag(entries, t), t) == entries
  {
    var w := entries + [t];
    assert w[..|entries|] == entries;
    var i := FirstIndex(w, t);
    assert forall j :: 0 <= j < |entries| ==> w[j] == entries[j];
    assert i == |entries|;
  }

  /** What `removeTag` does to the list as the script is written. The active
      list and the full list of the unit are the same array, so after the
      first `splice` the second `indexOf` finds the next occurrence, if any,
      and removes it as well. */
  function RemoveTagAsWritten(entries: seq<Entry>, t: Entry): (r: seq<Entry>)
    ensures t !in entries ==> r == entries
    ensures t in entries ==> multiset(r) == multiset(entries) - multiset{t, t}
  {
    if t in entries then RemoveFirst(RemoveFirst(entries, t), t) else entries
  }

  /** On a unit that carries a tag twice, `removeTag` as written drops both
      copies, where removing the first occurrence keeps one. */
  lemma RemoveTagAsWrittenDropsDuplicate()
    ensures RemoveTagAsWritten(["red", "red"], "red") == []
    ensures RemoveFirst(["red", "red"], "red") == ["red"]
  {
    var l: seq<Entry> := ["red", "red"];
    assert FirstIndex(l, "red") == 0;
    assert RemoveFirst(l, "red") == ["red"];
    var one: seq<Entry> := ["red"];
    assert FirstIndex(one, "red") == 0;
  }

  /** The two agree whenever the tag occurs at most once, which is all
      `addTag` can produce on its own. */
  lemma RemoveTagAsWrittenAgreesOnSingle(entries: seq<Entry>, t: Entry)
    requires multiset(entries)[t] <= 1
    ensures RemoveTagAsWritten(entries, t) == RemoveFirst(entries, t)
  {
    if t in entries {
      var once := RemoveFirst(entries, t);
      assert multiset(once)[t] == 0;
      assert t !in once;
    }
  }

  // ---------------------------------------------------------------------
  // Notes on one unit

  /** Number of notes. */
  function NoteCount(entries: seq<Entry>): nat {
    if entries == [] then 0
    else (if IsNote(entries[0]) then 1 else 0) + NoteCount(entries[1..])
  }

  /** The note texts shown for a unit: the notes in order, `%` removed. */
  function Notes(entries: seq<Entry>): (r: seq<string>)
    ensures |r| == NoteCount(entries)
  {
    if entries == [] then []
    else (if IsNote(entries[0]) then [entries[0][1..]] else []) + Notes(entries[1..])
  }

  /** The k-th note shown is the entry of the note of rank k, without its
      `%`. */
  lemma {:induction false} NotesAt(entries: seq<Entry>, k: nat)
    requires k < NoteCount(entries)
    ensures NotePosition(entries, k).Some?
    ensures Notes(entries)[k] == entries[NotePosition(entries, k).value][1..]
  {
    var head, tail := entries[0], entries[1..];
    if !(IsNote(head) && k == 0) {
      var k' := if IsNote(head) then k - 1 else k;
      NotesAt(tail, k');
      var p := NotePosition(tail, k').value;
      assert NotePosition(entries, k) == Some(p + 1);
      assert entries[p + 1] == tail[p];
    }
  }

  /** The tags of a unit, in order. */
  function TagEntries(entries: seq<Entry>): (r: seq<Entry>)
    ensures forall i :: 0 <= i < |r| ==> !IsNote(r[i])
  {
    if entries == [] then []
    else (if IsNote(entries[0]) then [] else [entries[0]]) + TagEntries(entries[1..])
  }

  /** The loop of `removeNote`: the position of the note whose rank among the
      notes is `k` (counting from 0), or `None` when no note has that rank. */
  function NotePosition(entries: seq<Entry>, k: int): (r: Option<nat>)
    ensures r.Some? ==> r.value < |entries| && IsNote(entries[r.value])
                        && NoteCount(entries[..r.value]) == k
    ensures r.None? <==> !(0 <= k < NoteCount(entries))
  {
    if entries == [] then None
    else if IsNote(entries[0]) && k == 0 then Some(0)
    else
      var rest := NotePosition(entries[1..], if IsNote(entries[0]) then k - 1 else k);
      match rest
      case None => None
      case Some(p) =>
        assert entries[..p + 1][1..] == entries[1..][..p];
        Some(p + 1)
  }

  function RemoveAt(entries: seq<Entry>, i: nat): seq<Entry>
    requires i < |entries|
  {
    entries[..i] + entries[i + 1..]
  }

  /** The list after removing the note of rank `k`; unchanged when there is
      no such note. */
  function RemoveNthNote(entries: seq<Entry>, k: int): seq<Entry> {
    match NotePosition(entries, k)
    case Some(i) => RemoveAt(entries, i)
    case None => entries
  }

  lemma RemoveAtCons(entries: seq<Entry>, p: nat)
    requires p + 1 < |entries|
    ensures RemoveAt(entries, p + 1) == [entries[0]] + RemoveAt(entries[1..], p)
  {
  }

  /** Past the first entry, removing the note of rank `k` is removing the
      note of the matching rank from the rest of the list. */
  lemma RemoveNthNoteCons(entries: seq<Entry>, k: int)
    requires entries != [] && 0 <= k < NoteCount(entries)
    requires !(IsNote(entries[0]) && k == 0)
    ensures var k' := if IsNote(entries[0]) then k - 1 else k;
            RemoveNthNote(entries, k) == [entries[0]] + RemoveNthNote(entries[1..], k')
  {
    var k' := if IsNote(entries[0]) then k - 1 else k;
    var p := NotePosition(entries[1..], k').value;
    assert NotePosition(entries, k) == Some(p + 1);
    RemoveAtCons(entries, p);
  }

  /** Removing the note of rank `k` removes exactly the k-th note text,
      leaves every tag and the other notes in their order, and shortens the
      list by one; any other rank leaves the list as it was. */
  lemma RemoveNthNoteSpec(entries: seq<Entry>, k: int)
    ensures 0 <= k < NoteCount(entries) ==>
              var r := RemoveNthNote(entries, k);
              && |r| == |entries| - 1
              && (exists i :: 0 <= i < |entries| && IsNote(entries[i]) && NoteCount(entries[..i]) == k
                              && r == entries[..i] + entries[i + 1..])
              && Notes(r) == Notes(entries)[..k] + Notes(entries)[k + 1..]
              && TagEntries(r) == TagEntries(entries)
    ensures !(0 <= k < NoteCount(entries)) ==> RemoveNthNote(entries, k) == entries
  {
    if 0 <= k < NoteCount(entries) {
      RemoveNthNoteAt(entries, k);
      RemoveNthNoteTags(entries, k);
      RemoveNthNoteNotes(entries, k);
    }
  }

  /** Removing the note of rank `k` splices out exactly the entry of that
      note, keeping every other entry in its place. */
  lemma RemoveNthNoteAt(entries: seq<Entry>, k: int)
    requires 0 <= k < NoteCount(entries)
    ensures exists i :: 0 <= i < |entries| && IsNote(entries[i]) && NoteCount(entries[..i]) == k
                        && RemoveNthNote(entries, k) == entries[..i] + entries[i + 1..]
  {
    var i := NotePosition(entries, k).value;
    assert RemoveNthNote(entries, k) == entries[..i] + entries[i + 1..];
  }

  /** Removing a note leaves the tags, in order. */
  lemma {:induction false} RemoveNthNoteTags(entries: seq<Entry>, k: int)
    requires 0 <= k < NoteCount(entries)
    ensures |RemoveNthNote(entries, k)| == |entries| - 1
    ensures TagEntries(RemoveNthNote(entries, k)) == TagEntries(entries)
  {
    var head, tail := entries[0], entries[1..];
    if IsNote(head) && k == 0 {
      assert RemoveNthNote(entries, k) == tail;
      ConsViews(head, tail);
      assert entries == [head] + tail;
    } else {
      var k' := if IsNote(head) then k - 1 else k;
      var r' := RemoveNthNote(tail, k');
      RemoveNthNoteTags(tail, k');
      RemoveNthNoteCons(entries, k);
      assert entries == [head] + tail;
      ConsViews(head, r');
      ConsViews(head, tail);
    }
  }

  /** Removing the note of rank `k` drops exactly that note text. */
  lemma {:induction false} RemoveNthNoteNotes(entries: seq<Entry>, k: int)
    requires 0 <= k < NoteCount(entries)
    ensures Notes(RemoveNthNote(entries, k)) == Notes(entries)[..k] + Notes(entries)[k + 1..]
  {
    var head, tail := entries[0], entries[1..];
    assert entries == [head] + tail;
    if IsNote(head) && k == 0 {
      ConsViews(head, tail);
      assert RemoveNthNote(entries, k) == tail;
    } else {
      var k' := if IsNote(head) then k - 1 else k;
      var r' := RemoveNthNote(tail, k');
      RemoveNthNoteNotes(tail, k');
      RemoveNthNoteCons(entries, k);
      if IsNote(head) {
        NotesBehindNote(head, tail, r', k');
      } else {
        NotesBehindTag(head, tail, r', k');
      }
    }
  }

  lemma NotesBehindNote(head: Entry, tail: seq<Entry>, r: seq<Entry>, k: nat)
    requires IsNote(head) && k < |Notes(tail)|
    requires Notes(r) == Notes(tail)[..k] + Notes(tail)[k + 1..]
    ensures Notes([head] + r) == Notes([head] + tail)[..k + 1] + Notes([head] + tail)[k + 2..]
  {
    ConsViews(head, r);
    ConsViews(head, tail);
    NotesSplice(head[1..], Notes(tail), k);
  }

  lemma NotesBehindTag(head: Entry, tail: seq<Entry>, r: seq<Entry>, k: nat)
    requires !IsNote(head) && k < |Notes(tail)|
    requires Notes(r) == Notes(tail)[..k] + Notes(tail)[k + 1..]
    ensures Notes([head] + r) == Notes([head] + tail)[..k] + Notes([head] + tail)[k + 1..]
  {
    ConsViews(head, r);
    ConsViews(head, tail);
  }

  lemma ConsViews(head: Entry, rest: seq<Entry>)
    ensures Notes([head] + rest) == (if IsNote(head) then [head[1..]] else []) + Notes(rest)
    ensures TagEntries([head] + rest) == (if IsNote(head) then [] else [head]) + TagEntries(rest)
  {
    assert ([head] + rest)[1..] == rest;
  }

  lemma NotesSplice(x: string, n: seq<string>, k: nat)
    requires k < |n|
    ensures ([x] + n)[..k + 1] + ([x] + n)[k + 2..] == [x] + (n[..k] + n[k + 1..])
  {
  }

  /** `removeNote` reads the ordinal after the `%`: `parseInt` of the trimmed
      rest, minus one; `None` when there is no number. */
  function NoteRank(input: string): Option<int> {
    match ParseInt(Trim(if input == [] then [] else input[1..]))
    case None => None
    case Some(n) => Some(n - 1)
  }

  /** `%` followed by the ordinal `n` names the note of rank `n - 1`. */
  lemma NoteRankOfOrdinal(n: nat)
    ensures NoteRank("%" + NatToString(n)) == Some(n - 1)
  {
    var d := NatToString(n);
    assert ("%" + d)[1..] == d;
    DigitsTrim(d);
    ParseIntOfNatToString(n, []);
    assert d + [] == d;
  }

  /** Only digits are read after the `%`: `%#2` names no note. */
  lemma NoteRankNeedsDigits()
    ensures NoteRank("%#2") == None
  {
    var rest := "#2";
    assert ("%#2")[1..] == rest;
    HashTwoTrim();
    assert !IsDigit(rest[0]);
  }

  lemma HashTwoTrim()
    ensures Trim("#2") == "#2"
  {
    var rest := "#2";
    assert rest[0] == '#' && rest[1] == '2';
    TrimClean(rest);
  }

  // ---------------------------------------------------------------------
  // Filling the store with the image folder names

  /** The store after the fill, and whether anything was added. */
  datatype Filled = Filled(store: LabelStore, updated: bool)

  /** `appendAllFolderNamesToNeuronLabels`: each folder name that is not yet a
      key gets an empty entry list; existing lists are left alone. */
  function Fill(st: LabelStore, names: seq<Id>): (r: Filled)
    ensures forall k :: k in r.store.labels <==> k in st.labels || k in names
    ensures forall k :: k in st.labels ==> r.store.labels[k] == st.labels[k]
    ensures forall k :: k in r.store.labels && k !in st.labels ==> r.store.labels[k] == []
    ensures r.updated <==> exists n :: n in names && n !in st.labels
    ensures |st.keys| <= |r.store.keys| && r.store.keys[..|st.keys|] == st.keys
  {
    if names == [] then Filled(st, false)
    else
      var init, n := names[..|names| - 1], names[|names| - 1];
      assert names == init + [n];
      var f := Fill(st, init);
      if n in f.store.labels then f
      else
        var s' := Put(f.store, n, []);
        assert s'.keys[..|st.keys|] == st.keys;
        Filled(s', true)
  }

  /** On a valid store the fill appends the new names to the key order, each
      once, in folder order, and keeps the store valid. */
  lemma {:induction false} FillKeys(st: LabelStore, names: seq<Id>)
    requires ValidStore(st)
    ensures ValidStore(Fill(st, names).store)
    ensures Fill(st, names).store.keys == Union(st.keys, names)
  {
    if names == [] {
      assert st.keys + names == st.keys;
      DedupOfNoDup(st.keys);
    } else {
      var init, n := names[..|names| - 1], names[|names| - 1];
      assert names == init + [n];
      FillKeys(st, init);
      assert st.keys + names == (st.keys + init) + [n];
      DedupSnoc(st.keys + init, n);
    }
  }

  /** Filling twice with the same names adds nothing the second time. */
  lemma FillIdempotent(st: LabelStore, names: seq<Id>)
    ensures Fill(Fill(st, names).store, names) == Filled(Fill(st, names).store, false)
  {
    FillNothingNew(Fill(st, names).store, names);
  }

  lemma {:induction false} FillNothingNew(st: LabelStore, names: seq<Id>)
    requires forall n :: n in names ==> n in st.labels
    ensures Fill(st, names) == Filled(st, false)
  {
    if names != [] {
      var init := names[..|names| - 1];
      assert forall n :: n in init ==> n in names;
      FillNothingNew(st, init);
    }
  }
}
