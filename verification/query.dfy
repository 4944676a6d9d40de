/** The search box language of the viewer. A search is a string of clause
    texts joined by the operators `&` (and), `|` (or) and `!` (and not).
    Whitespace is removed, the text is cut at every operator character, a
    leading `&` is supplied when the search starts with a clause, and a
    leading `|` is read as `&`. A clause text in single or double quotes
    selects the unit ids that contain the quoted text; any other clause text
    selects the units the tag index lists under that tag. The first clause
    is applied to the set of all unit ids; then every `|` clause is added,
    every `&` clause intersected and every `!` clause subtracted, in groups
    and in that order, whatever their order in the search. */
module Query {
  import opened Options
  import opened Text
  import opened SeqSet
  import opened Labels
  import opened Tags

  // ---------------------------------------------------------------------
  // Tokens

  predicate IsOp(c: char) {
    c == '&' || c == '|' || c == '!'
  }

  /** One of the strings `"&"`, `"|"`, `"!"`. */
  predicate IsOpToken(tok: string) {
    |tok| == 1 && IsOp(tok[0])
  }

  predicate NoOps(s: string) {
    forall i :: 0 <= i < |s| ==> !IsOp(s[i])
  }

  /** The strings of `toks` written one after the other. */
  function Concat(toks: seq<string>): string {
    if toks == [] then [] else toks[0] + Concat(toks[1..])
  }

  /** The shape of the pieces `split(/([&|!])/).filter(Boolean)` produces:
      every piece is non-empty and is either one operator character or a
      run of other characters, and two runs are never adjacent. */
  ghost predicate TokenList(r: seq<string>) {
    && (forall i :: 0 <= i < |r| ==> r[i] != [] && (IsOpToken(r[i]) || NoOps(r[i])))
    && (forall i :: 0 <= i < |r| - 1 ==> Adjacent(r, i))
  }

  /** The pieces at `i` and `i + 1` are not both runs. */
  predicate Adjacent(r: seq<string>, i: int)
    requires 0 <= i < |r| - 1
  {
    IsOpToken(r[i]) || IsOpToken(r[i + 1])
  }

  /** Two piece lists join into one when no run meets another at the seam. */
  lemma TokenListAppend(a: seq<string>, b: seq<string>)
    requires TokenList(a) && TokenList(b)
    requires a == [] || b == [] || IsOpToken(a[|a| - 1]) || IsOpToken(b[0])
    ensures TokenList(a + b)
  {
    var r := a + b;
    forall i | 0 <= i < |r|
      ensures r[i] != [] && (IsOpToken(r[i]) || NoOps(r[i]))
    {
      if i < |a| {
        assert r[i] == a[i];
      } else {
        assert r[i] == b[i - |a|];
      }
    }
    forall i | 0 <= i < |r| - 1
      ensures Adjacent(r, i)
    {
      if i + 1 < |a| {
        assert r[i] == a[i] && r[i + 1] == a[i + 1];
        assert Adjacent(a, i);
      } else if i >= |a| {
        assert r[i] == b[i - |a|] && r[i + 1] == b[i + 1 - |a|];
        assert Adjacent(b, i - |a|);
      }
    }
  }

  /** `s.split(/([&|!])/).filter(Boolean)`: each operator character on its
      own, and every maximal run of other characters as one piece. */
  function Tokenize(s: string): (r: seq<string>)
    ensures Concat(r) == s
    ensures TokenList(r)
  {
    if s == [] then []
    else
      var rest := Tokenize(s[1..]);
      assert s == [s[0]] + s[1..];
      if IsOp(s[0]) then
        TokenListAppend([[s[0]]], rest);
        [[s[0]]] + rest
      else if rest != [] && !IsOpToken(rest[0]) then
        assert Concat(rest) == rest[0] + Concat(rest[1..]);
        var merged := [s[0]] + rest[0];
        assert NoOps(merged) by {
          forall i | 0 <= i < |merged|
            ensures !IsOp(merged[i])
          {
            if i > 0 {
              assert merged[i] == rest[0][i - 1];
            }
          }
        }
        var r := [merged] + rest[1..];
        assert forall i :: 1 <= i < |rest| ==> r[i] == rest[i];
        assert forall i :: 0 <= i < |r| - 1 ==> Adjacent(r, i) by {
          forall i | 0 <= i < |r| - 1
            ensures Adjacent(r, i)
          {
            assert Adjacent(rest, i);
          }
        }
        r
      else
        TokenListAppend([[s[0]]], rest);
        [[s[0]]] + rest
  }

  lemma TokenListTail(r: seq<string>)
    requires TokenList(r) && r != []
    ensures TokenList(r[1..])
  {
    var t := r[1..];
    forall i | 0 <= i < |t| - 1
      ensures Adjacent(t, i)
    {
      assert Adjacent(r, i + 1);
    }
  }

  /** The pieces are determined by the text: any list of the shape
      `TokenList` that spells `s` is `Tokenize(s)`. */
  lemma {:induction false} TokenizeUnique(s: string, r: seq<string>)
    requires TokenList(r) && Concat(r) == s
    ensures r == Tokenize(s)
    decreases |s|
  {
    if r != [] {
      var t0 := r[0];
      assert s == t0 + Concat(r[1..]);
      assert s[0] == t0[0];
      if |t0| == 1 {
        TokenListTail(r);
        assert s[1..] == Concat(r[1..]);
        TokenizeUnique(s[1..], r[1..]);
        assert t0 == [s[0]];
        if !IsOp(s[0]) && |r| > 1 {
          assert Adjacent(r, 0);
        }
      } else {
        var t1 := t0[1..];
        var r' := [t1] + r[1..];
        assert t0 == [s[0]] + t1;
        assert NoOps(t1) by {
          forall i | 0 <= i < |t1|
            ensures !IsOp(t1[i])
          {
            assert t1[i] == t0[i + 1];
          }
        }
        assert TokenList(r') by {
          TokenListTail(r);
          assert [t1][0] == t1;
          if |r| > 1 {
            assert Adjacent(r, 0);
          }
          TokenListAppend([t1], r[1..]);
        }
        assert Concat(r') == t1 + Concat(r[1..]);
        assert s[1..] == Concat(r');
        TokenizeUnique(s[1..], r');
      }
    }
  }

  // ---------------------------------------------------------------------
  // Clauses

  datatype Op = And | Or | Not

  /** One operator and the clause text it applies to. */
  datatype Clause = Clause(op: Op, text: string)

  /** A search that was accepted: either the empty search, which shows every
      unit, or a first clause followed by the other clauses in search order. */
  datatype Parsed = ShowAll | Filter(head: Clause, tail: seq<Clause>)

  datatype SearchError = InvalidSearchFormat

  function OpToken(op: Op): string {
    match op
    case And => "&"
    case Or => "|"
    case Not => "!"
  }

  /** The operator an operator token stands for. */
  function OpOf(tok: string): (op: Op)
    requires IsOpToken(tok)
    ensures OpToken(op) == tok
  {
    if tok[0] == '&' then And else if tok[0] == '|' then Or else Not
  }

  /** Supplies the leading operator: `&` before a search that starts with a
      clause text, and `&` in place of a leading `|`. */
  function Normalize(toks: seq<string>): (r: seq<string>)
    requires toks != []
    ensures r != [] && IsOpToken(r[0]) && r[0] != "|"
    ensures r[1..] == if IsOpToken(toks[0]) then toks[1..] else toks
    ensures IsOpToken(toks[0]) && toks[0] != "|" ==> r == toks
    ensures !IsOpToken(toks[0]) || toks[0] == "|" ==> r[0] == "&"
  {
    if !IsOpToken(toks[0]) then ["&"] + toks
    else if toks[0] == "|" then ["&"] + toks[1..]
    else toks
  }

  /** `validateSearchString`: an even number of pieces with an operator at
      every even position. */
  predicate WellFormed(q: seq<string>) {
    |q| % 2 == 0 && forall i :: 0 <= i < |q| && i % 2 == 0 ==> IsOpToken(q[i])
  }

  lemma WellFormedCons(a: string, b: string, rest: seq<string>)
    ensures WellFormed([a, b] + rest) <==> IsOpToken(a) && WellFormed(rest)
  {
    var q := [a, b] + rest;
    if IsOpToken(a) && WellFormed(rest) {
      forall i | 0 <= i < |q| && i % 2 == 0
        ensures IsOpToken(q[i])
      {
        if i >= 2 {
          assert q[i] == rest[i - 2];
        }
      }
    }
    if WellFormed(q) {
      assert q[0] == a && |q| == |rest| + 2;
      forall i | 0 <= i < |rest| && i % 2 == 0
        ensures IsOpToken(rest[i])
      {
        assert rest[i] == q[i + 2];
      }
    }
  }

  /** The operator/clause pairs of a well-formed piece list. */
  function Pairs(q: seq<string>): (r: seq<Clause>)
    requires WellFormed(q)
    ensures |r| == |q| / 2
  {
    if q == [] then []
    else
      WellFormedCons(q[0], q[1], q[2..]);
      assert q == [q[0], q[1]] + q[2..];
      [Clause(OpOf(q[0]), q[1])] + Pairs(q[2..])
  }

  /** `applySearch` up to the evaluation: whitespace removed; nothing left
      shows every unit; a malformed search is refused. */
  function ParseSearch(text: string): (r: Result<Parsed, SearchError>)
    ensures r == Success(ShowAll) <==> AllWhitespace(text)
    ensures r.Success? && r.value.Filter? ==> r.value.head.op != Or
  {
    ParseStripped(StripWhitespace(text))
  }

  /** The reading of a search once its whitespace is gone. */
  function ParseStripped(s: string): (r: Result<Parsed, SearchError>)
    ensures r == Success(ShowAll) <==> s == []
    ensures r.Success? && r.value.Filter? ==> r.value.head.op != Or
  {
    if s == [] then Success(ShowAll) else ParsePieces(Normalize(Tokenize(s)))
  }

  /** Validation and pairing of the normalised pieces. */
  function ParsePieces(q: seq<string>): (r: Result<Parsed, SearchError>)
    requires q != [] && IsOpToken(q[0]) && q[0] != "|"
    ensures r.Success? <==> WellFormed(q)
    ensures r.Success? ==> r.value.Filter? && r.value.head.op != Or
  {
    if !WellFormed(q) then Failure(InvalidSearchFormat)
    else
      WellFormedCons(q[0], q[1], q[2..]);
      assert q == [q[0], q[1]] + q[2..];
      var cs := Pairs(q);
      Success(Filter(cs[0], cs[1..]))
  }

  /** Two stripped searches whose normalised pieces agree parse alike. */
  lemma SamePieces(x: string, y: string)
    requires StripWhitespace(x) == x != [] && StripWhitespace(y) == y != []
    requires Normalize(Tokenize(x)) == Normalize(Tokenize(y))
    ensures ParseSearch(x) == ParseSearch(y)
  {
  }

  // ---------------------------------------------------------------------
  // Writing a search back as text

  /** A clause text that reads back as itself: non-empty, with no operator
      character and no whitespace. */
  predicate Plain(t: string) {
    t != [] && NoOps(t) && forall i :: 0 <= i < |t| ==> !IsWhitespace(t[i])
  }

  /** The pieces of a clause list: each operator followed by its text. */
  function Tokens(cs: seq<Clause>): seq<string> {
    if cs == [] then [] else [OpToken(cs[0].op), cs[0].text] + Tokens(cs[1..])
  }

  function Render(cs: seq<Clause>): string {
    Concat(Tokens(cs))
  }

  lemma ConcatAppend(a: seq<string>, b: seq<string>)
    ensures Concat(a + b) == Concat(a) + Concat(b)
    decreases |a|
  {
    if a != [] {
      var ab := a + b;
      assert ab[0] == a[0];
      assert ab[1..] == a[1..] + b;
      ConcatAppend(a[1..], b);
      ConcatAssoc(a[0], Concat(a[1..]), Concat(b));
    } else {
      assert a + b == b;
    }
  }

  lemma ConcatPair(x: string, y: string, rest: seq<string>)
    ensures Concat([x, y] + rest) == x + (y + Concat(rest))
  {
    ConcatAppend([x, y], rest);
    assert Concat([y]) == y + Concat([]);
  }

  /** The pieces of clauses with plain texts have the shape `Tokenize` gives
      and start with the first clause's operator. */
  lemma {:induction false} TokensList(cs: seq<Clause>)
    requires forall c :: c in cs ==> Plain(c.text)
    ensures TokenList(Tokens(cs))
    ensures cs != [] ==> Tokens(cs)[0] == OpToken(cs[0].op)
    ensures |Tokens(cs)| == 2 * |cs|
  {
    if cs != [] {
      var c, rest := cs[0], cs[1..];
      assert forall c' :: c' in rest ==> c' in cs;
      TokensList(rest);
      var tr := Tokens(rest);
      var pair := [OpToken(c.op), c.text];
      assert Adjacent(pair, 0);
      TokenListAppend(pair, tr);
      assert Tokens(cs) == pair + tr;
    }
  }

  /** They form a well-formed list whose pairs are the clauses. */
  lemma {:induction false} TokensPairs(cs: seq<Clause>)
    ensures WellFormed(Tokens(cs))
    ensures Pairs(Tokens(cs)) == cs
  {
    if cs != [] {
      var c, rest := cs[0], cs[1..];
      TokensPairs(rest);
      var t := [OpToken(c.op), c.text] + Tokens(rest);
      WellFormedCons(OpToken(c.op), c.text, Tokens(rest));
      assert Tokens(cs) == t;
      assert t[0] == OpToken(c.op) && t[1] == c.text && t[2..] == Tokens(rest);
    }
  }

  /** They spell a text without whitespace. */
  lemma {:induction false} RenderClean(cs: seq<Clause>)
    requires forall c :: c in cs ==> Plain(c.text)
    ensures StripWhitespace(Render(cs)) == Render(cs)
  {
    if cs != [] {
      var c, rest := cs[0], cs[1..];
      assert forall c' :: c' in rest ==> c' in cs;
      RenderClean(rest);
      var tail := Render(rest);
      assert Tokens(cs) == [OpToken(c.op), c.text] + Tokens(rest);
      ConcatPair(OpToken(c.op), c.text, Tokens(rest));
      StripWhitespaceConcat(OpToken(c.op), c.text + tail);
      StripWhitespaceConcat(c.text, tail);
      StripWhitespaceOfClean(c.text);
      OpTokenClean(c.op);
    }
  }

  lemma OpTokenClean(op: Op)
    ensures StripWhitespace(OpToken(op)) == OpToken(op)
  {
    var t := OpToken(op);
    assert t[0] == '&' || t[0] == '|' || t[0] == '!';
    assert !IsWhitespace(t[0]);
    StripWhitespaceOfClean(t);
  }

  /** Reading the pieces of a clause list back after `Normalize`. */
  lemma ParseTokens(s: string, cs: seq<Clause>)
    requires cs != [] && cs[0].op != Or
    requires forall c :: c in cs ==> Plain(c.text)
    requires s == Render(cs)
    ensures ParseStripped(s) == Success(Filter(cs[0], cs[1..]))
  {
    RenderPieces(cs);
    assert Normalize(Tokens(cs)) == Tokens(cs);
    PairsOfTokens(cs);
  }

  lemma PairsOfTokens(cs: seq<Clause>)
    requires cs != [] && cs[0].op != Or
    ensures Tokens(cs) != [] && IsOpToken(Tokens(cs)[0]) && Tokens(cs)[0] != "|"
    ensures ParsePieces(Tokens(cs)) == Success(Filter(cs[0], cs[1..]))
  {
    TokensPairs(cs);
    assert Tokens(cs) == [OpToken(cs[0].op), cs[0].text] + Tokens(cs[1..]);
  }

  /** Clauses with plain texts spell a non-empty text without whitespace
      whose pieces are exactly the clauses' operators and texts. */
  lemma RenderPieces(cs: seq<Clause>)
    requires cs != [] && forall c :: c in cs ==> Plain(c.text)
    ensures StripWhitespace(Render(cs)) == Render(cs) != []
    ensures Tokenize(Render(cs)) == Tokens(cs) == [OpToken(cs[0].op), cs[0].text] + Tokens(cs[1..])
  {
    RenderClean(cs);
    TokensList(cs);
    TokenizeUnique(Render(cs), Tokens(cs));
    ConcatPair(OpToken(cs[0].op), cs[0].text, Tokens(cs[1..]));
  }

  /** Writing a search out and reading it back gives the same clauses, when
      every clause text is plain and the first operator is not `|`. */
  lemma ParseRender(head: Clause, tail: seq<Clause>)
    requires head.op != Or
    requires Plain(head.text) && forall c :: c in tail ==> Plain(c.text)
    ensures ParseSearch(Render([head] + tail)) == Success(Filter(head, tail))
  {
    var cs := [head] + tail;
    assert forall c :: c in cs ==> c == head || c in tail;
    RenderClean(cs);
    ParseTokens(Render(cs), cs);
  }

  /** A search that starts with a clause text is read as if it started with
      `&`. */
  lemma ImplicitAnd(text: string, tail: seq<Clause>)
    requires Plain(text) && forall c :: c in tail ==> Plain(c.text)
    ensures ParseSearch(text + Render(tail)) == ParseSearch(Render([Clause(And, text)] + tail))
  {
    var cs := [Clause(And, text)] + tail;
    assert forall c :: c in cs ==> c == cs[0] || c in tail;
    RenderPieces(cs);
    assert cs[1..] == tail;
    LeadingTextPieces(text, tail);
    LeadingTextClean(text, tail);
    SamePieces(text + Render(tail), Render(cs));
  }

  lemma LeadingTextPieces(text: string, tail: seq<Clause>)
    requires Plain(text) && forall c :: c in tail ==> Plain(c.text)
    ensures Tokenize(text + Render(tail)) == [text] + Tokens(tail)
  {
    TokensList(tail);
    var toks := [text] + Tokens(tail);
    ConcatAppend([text], Tokens(tail));
    assert Concat([text]) == text + Concat([]);
    TokenListAppend([text], Tokens(tail));
    TokenizeUnique(text + Render(tail), toks);
  }

  lemma LeadingTextClean(text: string, tail: seq<Clause>)
    requires Plain(text) && forall c :: c in tail ==> Plain(c.text)
    ensures StripWhitespace(text + Render(tail)) == text + Render(tail) != []
  {
    RenderClean(tail);
    StripWhitespaceConcat(text, Render(tail));
    StripWhitespaceOfClean(text);
  }

  /** A leading `|` is read as `&`. */
  lemma LeadingOrIsAnd(text: string, tail: seq<Clause>)
    requires Plain(text) && forall c :: c in tail ==> Plain(c.text)
    ensures ParseSearch(Render([Clause(Or, text)] + tail)) == ParseSearch(Render([Clause(And, text)] + tail))
  {
    var ors := [Clause(Or, text)] + tail;
    var ands := [Clause(And, text)] + tail;
    assert forall c :: c in ors ==> c == ors[0] || c in tail;
    assert forall c :: c in ands ==> c == ands[0] || c in tail;
    RenderPieces(ors);
    RenderPieces(ands);
    assert ors[1..] == tail && ands[1..] == tail;
    SamePieces(Render(ors), Render(ands));
  }

  /** A search that ends with an operator after a clause text is refused. */
  lemma TrailingOpRejected(cs: seq<Clause>, op: Op)
    requires cs != [] && forall c :: c in cs ==> Plain(c.text)
    ensures ParseSearch(Render(cs) + OpToken(op)).Failure?
  {
    TrailingOpPieces(cs, op);
    TrailingOpClean(cs, op);
    OddPiecesRejected(Render(cs) + OpToken(op));
  }

  lemma TrailingOpClean(cs: seq<Clause>, op: Op)
    requires forall c :: c in cs ==> Plain(c.text)
    ensures StripWhitespace(Render(cs) + OpToken(op)) == Render(cs) + OpToken(op) != []
  {
    RenderClean(cs);
    StripWhitespaceConcat(Render(cs), OpToken(op));
    OpTokenClean(op);
  }

  /** A stripped search that starts with an operator and splits into an odd
      number of pieces is refused. */
  lemma OddPiecesRejected(s: string)
    requires StripWhitespace(s) == s != []
    requires IsOpToken(Tokenize(s)[0]) && |Tokenize(s)| % 2 == 1
    ensures ParseSearch(s).Failure?
  {
    var q := Normalize(Tokenize(s));
    assert |q| == |Tokenize(s)|;
  }

  lemma TrailingOpPieces(cs: seq<Clause>, op: Op)
    requires cs != [] && forall c :: c in cs ==> Plain(c.text)
    ensures var t := Tokenize(Render(cs) + OpToken(op));
            t != [] && IsOpToken(t[0]) && |t| % 2 == 1
  {
    TokensList(cs);
    var toks := Tokens(cs) + [OpToken(op)];
    ConcatAppend(Tokens(cs), [OpToken(op)]);
    assert Concat([OpToken(op)]) == OpToken(op) + Concat([]);
    TokenListAppend(Tokens(cs), [OpToken(op)]);
    TokenizeUnique(Render(cs) + OpToken(op), toks);
    assert toks[0] == OpToken(cs[0].op);
    assert (2 * |cs| + 1) % 2 == 1;
  }

  /** Spaces anywhere in the search are ignored. */
  lemma SpacesIgnored(a: string, b: string)
    ensures ParseSearch(a + " " + b) == ParseSearch(a + b)
  {
    var sa, sb := StripWhitespace(a), StripWhitespace(b);
    StripWhitespaceConcat(a + " ", b);
    StripWhitespaceConcat(a, " ");
    StripWhitespaceConcat(a, b);
    StripSpace();
    calc {
      StripWhitespace(a + " " + b);
      StripWhitespace(a + " ") + sb;
      (sa + []) + sb;
      { assert sa + [] == sa; }
      StripWhitespace(a + b);
    }
    SameStripped(a + " " + b, a + b);
  }

  lemma SameStripped(x: string, y: string)
    requires StripWhitespace(x) == StripWhitespace(y)
    ensures ParseSearch(x) == ParseSearch(y)
  {
  }

  lemma StripSpace()
    ensures StripWhitespace(" ") == []
  {
    assert IsWhitespace(" "[0]);
    assert " "[1..] == [];
  }

  // ---------------------------------------------------------------------
  // What one clause selects

  /** `getQuerySet`'s test for an id clause: the text starts and ends with
      the same quote character (a lone quote character counts). */
  predicate IsQuoted(q: string) {
    (StartsWith(q, "\"") && EndsWith(q, "\"")) || (StartsWith(q, "'") && EndsWith(q, "'"))
  }

  /** `q.slice(1, -1)`. */
  function Unquote(q: string): (r: string)
    ensures |q| >= 2 ==> r == q[1..|q| - 1]
    ensures |q| < 2 ==> r == []
  {
    if |q| >= 2 then q[1..|q| - 1] else []
  }

  function ContainsText(needle: string): string -> bool {
    x => Contains(x, needle)
  }

  /** `getQuerySet`: a quoted clause selects every unit id of the store that
      contains the quoted text; any other clause selects the units the tag
      index lists under that text, or nothing. */
  function ClauseSet(st: LabelStore, ix: TagIndex, q: string): (r: seq<Id>)
    ensures NoDup(r)
  {
    if IsQuoted(q) then Dedup(Keep(st.keys, ContainsText(Unquote(q))))
    else if q in ix.units then Dedup(ix.units[q])
    else []
  }

  /** A quoted clause selects the ids in which the quoted text occurs at some
      position, whatever the index says. */
  lemma QuotedClauseMeaning(st: LabelStore, ix: TagIndex, q: string, x: Id)
    requires IsQuoted(q)
    ensures x in ClauseSet(st, ix, q) <==> x in st.keys && exists i :: OccursAt(x, Unquote(q), i)
  {
    ContainsIff(x, Unquote(q));
  }

  /** Against an index built over `active`, a clause without quotes selects
      exactly the active units that carry it as a tag; a note text selects
      nothing. */
  lemma BareClauseMeaning(st: LabelStore, active: seq<Id>, q: string, x: Id)
    requires !IsQuoted(q)
    ensures x in ClauseSet(st, BuildIndex(active, st), q)
            <==> x in active && !IsNote(q) && q in LabelsOf(st, x)
  {
    BuildIndexSpec(active, st);
    var ix := BuildIndex(active, st);
    if x in active && !IsNote(q) && q in LabelsOf(st, x) {
      assert q in ix.units;
    }
  }

  // ---------------------------------------------------------------------
  // Evaluation

  /** `applyQuery`: the first clause applied to the set of all ids. */
  function ApplyQuery(u: seq<Id>, op: Op, sel: seq<Id>): (r: seq<Id>)
    ensures forall x :: x in r <==> match op
                                    case And => x in u && x in sel
                                    case Or => x in u || x in sel
                                    case Not => x in u && x !in sel
    ensures NoDup(u) ==> NoDup(r)
  {
    match op
    case And => Intersect(u, sel)
    case Or => Union(u, sel)
    case Not => Minus(u, sel)
  }

  /** The set after the first clause. */
  function Start(st: LabelStore, ix: TagIndex, head: Clause): seq<Id> {
    ApplyQuery(Dedup(st.keys), head.op, ClauseSet(st, ix, head.text))
  }

  /** Some `|` clause selects `x`. */
  predicate SomeOr(x: Id, st: LabelStore, ix: TagIndex, cs: seq<Clause>) {
    exists c :: c in cs && c.op == Or && x in ClauseSet(st, ix, c.text)
  }

  /** Every `&` clause selects `x`. */
  predicate AllAnd(x: Id, st: LabelStore, ix: TagIndex, cs: seq<Clause>) {
    forall c :: c in cs && c.op == And ==> x in ClauseSet(st, ix, c.text)
  }

  /** No `!` clause selects `x`. */
  predicate NoNot(x: Id, st: LabelStore, ix: TagIndex, cs: seq<Clause>) {
    forall c :: c in cs && c.op == Not ==> x !in ClauseSet(st, ix, c.text)
  }

  /** The test the `&` and `!` groups apply to what the `|` group left. */
  function Passes(st: LabelStore, ix: TagIndex, cs: seq<Clause>): Id -> bool {
    x => AllAnd(x, st, ix, cs) && NoNot(x, st, ix, cs)
  }

  lemma ClausesCons(cs: seq<Clause>)
    requires cs != []
    ensures forall c :: c in cs <==> c == cs[0] || c in cs[1..]
  {
    assert cs == [cs[0]] + cs[1..];
  }

  /** Adds the selection of every `|` clause, in search order: what was
      there stays in place and new ids are appended. */
  function OrAll(cur: seq<Id>, st: LabelStore, ix: TagIndex, cs: seq<Clause>): (r: seq<Id>)
    ensures forall x :: x in r <==> x in cur || SomeOr(x, st, ix, cs)
    ensures NoDup(cur) ==> NoDup(r) && cur <= r
    decreases cs
  {
    if cs == [] then cur
    else
      ClausesCons(cs);
      var next := if cs[0].op == Or then Union(cur, ClauseSet(st, ix, cs[0].text)) else cur;
      UnionPrefix(cur, ClauseSet(st, ix, cs[0].text));
      OrAll(next, st, ix, cs[1..])
  }

  /** Keeps, in order, what every `&` clause selects. */
  function AndAll(cur: seq<Id>, st: LabelStore, ix: TagIndex, cs: seq<Clause>): (r: seq<Id>)
    ensures forall x :: x in r <==> x in cur && AllAnd(x, st, ix, cs)
    ensures NoDup(cur) ==> NoDup(r)
    decreases cs
  {
    if cs == [] then cur
    else
      ClausesCons(cs);
      AndAll(if cs[0].op == And then Intersect(cur, ClauseSet(st, ix, cs[0].text)) else cur, st, ix, cs[1..])
  }

  /** Drops, keeping the order, what any `!` clause selects. */
  function NotAll(cur: seq<Id>, st: LabelStore, ix: TagIndex, cs: seq<Clause>): (r: seq<Id>)
    ensures forall x :: x in r <==> x in cur && NoNot(x, st, ix, cs)
    ensures NoDup(cur) ==> NoDup(r)
    decreases cs
  {
    if cs == [] then cur
    else
      ClausesCons(cs);
      NotAll(if cs[0].op == Not then Minus(cur, ClauseSet(st, ix, cs[0].text)) else cur, st, ix, cs[1..])
  }

  /** The ids `applySearch` makes active, in order. */
  function Evaluate(st: LabelStore, ix: TagIndex, head: Clause, tail: seq<Clause>): (r: seq<Id>)
    ensures NoDup(r)
    ensures forall x :: x in r <==>
              (x in Start(st, ix, head) || SomeOr(x, st, ix, tail))
              && AllAnd(x, st, ix, tail) && NoNot(x, st, ix, tail)
  {
    var cur := Start(st, ix, head);
    NotAll(AndAll(OrAll(cur, st, ix, tail), st, ix, tail), st, ix, tail)
  }

  /** The `&` group is a filter of the list it is given. */
  lemma {:induction false} AndAllKeep(cur: seq<Id>, st: LabelStore, ix: TagIndex, cs: seq<Clause>)
    ensures AndAll(cur, st, ix, cs) == Keep(cur, x => AllAnd(x, st, ix, cs))
    decreases cs
  {
    if cs == [] {
      KeepAll(cur, x => AllAnd(x, st, ix, cs));
    } else {
      ClausesCons(cs);
      var rest := cs[1..];
      AndAllKeep(if cs[0].op == And then Intersect(cur, ClauseSet(st, ix, cs[0].text)) else cur, st, ix, rest);
      if cs[0].op == And {
        var sel := ClauseSet(st, ix, cs[0].text);
        IntersectIsKeep(cur, sel, x => x in sel);
        KeepKeep(cur, x => x in sel, x => AllAnd(x, st, ix, rest), x => AllAnd(x, st, ix, cs));
      } else {
        KeepSame(cur, x => AllAnd(x, st, ix, rest), x => AllAnd(x, st, ix, cs));
      }
    }
  }

  /** The `!` group is a filter of the list it is given. */
  lemma {:induction false} NotAllKeep(cur: seq<Id>, st: LabelStore, ix: TagIndex, cs: seq<Clause>)
    ensures NotAll(cur, st, ix, cs) == Keep(cur, x => NoNot(x, st, ix, cs))
    decreases cs
  {
    if cs == [] {
      KeepAll(cur, x => NoNot(x, st, ix, cs));
    } else {
      ClausesCons(cs);
      var rest := cs[1..];
      NotAllKeep(if cs[0].op == Not then Minus(cur, ClauseSet(st, ix, cs[0].text)) else cur, st, ix, rest);
      if cs[0].op == Not {
        var sel := ClauseSet(st, ix, cs[0].text);
        MinusIsKeep(cur, sel, x => x !in sel);
        KeepKeep(cur, x => x !in sel, x => NoNot(x, st, ix, rest), x => NoNot(x, st, ix, cs));
      } else {
        KeepSame(cur, x => NoNot(x, st, ix, rest), x => NoNot(x, st, ix, cs));
      }
    }
  }

  /** The order of the result: the ids left after the first clause, in key
      order, followed by those the `|` clauses add, each once, in the order
      the `|` clauses select them; then only the ids every `&` clause selects
      and no `!` clause selects are kept, without reordering. */
  lemma EvaluateOrder(st: LabelStore, ix: TagIndex, head: Clause, tail: seq<Clause>)
    ensures var start := Start(st, ix, head);
            var ored := OrAll(start, st, ix, tail);
            && ored == start + Dedup(Minus(OrSelections(st, ix, tail), start))
            && Evaluate(st, ix, head, tail) == Keep(ored, Passes(st, ix, tail))
  {
    var ored := OrAll(Start(st, ix, head), st, ix, tail);
    OrAllOrder(Start(st, ix, head), st, ix, tail);
    AndAllKeep(ored, st, ix, tail);
    var anded := AndAll(ored, st, ix, tail);
    NotAllKeep(anded, st, ix, tail);
    KeepKeep(ored, x => AllAnd(x, st, ix, tail), x => NoNot(x, st, ix, tail), Passes(st, ix, tail));
  }

  /** The ids of the `|` clauses' selections, clause after clause. */
  function OrSelections(st: LabelStore, ix: TagIndex, cs: seq<Clause>): seq<Id> {
    if cs == [] then [] else OrSelection(st, ix, cs[0]) + OrSelections(st, ix, cs[1..])
  }

  /** The `|` group is one `Set` union with all the `|` selections: what was
      there stays in place and the new ids follow, each once, in the order
      the `|` clauses select them. */
  lemma OrAllOrder(cur: seq<Id>, st: LabelStore, ix: TagIndex, cs: seq<Clause>)
    requires NoDup(cur)
    ensures OrAll(cur, st, ix, cs) == cur + Dedup(Minus(OrSelections(st, ix, cs), cur))
  {
    OrAllDedup(cur, st, ix, cs);
    UnionAppends(cur, OrSelections(st, ix, cs));
  }

  lemma {:induction false} OrAllDedup(cur: seq<Id>, st: LabelStore, ix: TagIndex, cs: seq<Clause>)
    requires NoDup(cur)
    ensures OrAll(cur, st, ix, cs) == Dedup(cur + OrSelections(st, ix, cs))
    decreases cs
  {
    if cs == [] {
      assert cur + [] == cur;
      DedupOfNoDup(cur);
    } else {
      var sel := OrSelection(st, ix, cs[0]);
      var rest := OrSelections(st, ix, cs[1..]);
      var next := Dedup(cur + sel);
      OrAllCons(cur, st, ix, cs);
      OrAllDedup(next, st, ix, cs[1..]);
      DedupAbsorb(cur + sel, rest);
      ConcatAssoc(cur, sel, rest);
    }
  }

  /** What one clause adds to the `|` group. */
  function OrSelection(st: LabelStore, ix: TagIndex, c: Clause): seq<Id> {
    if c.op == Or then ClauseSet(st, ix, c.text) else []
  }

  /** One step of the `|` group is a `Set` union with the clause's selection. */
  lemma OrAllCons(cur: seq<Id>, st: LabelStore, ix: TagIndex, cs: seq<Clause>)
    requires NoDup(cur) && cs != []
    ensures OrAll(cur, st, ix, cs) == OrAll(Dedup(cur + OrSelection(st, ix, cs[0])), st, ix, cs[1..])
    ensures OrSelections(st, ix, cs) == OrSelection(st, ix, cs[0]) + OrSelections(st, ix, cs[1..])
  {
    if cs[0].op != Or {
      assert cur + [] == cur;
      DedupOfNoDup(cur);
    }
  }

  /** After a first clause with `&` or `!`, the ids that are left are in key
      order. */
  lemma StartOrder(st: LabelStore, ix: TagIndex, head: Clause)
    requires NoDup(st.keys) && head.op != Or
    ensures Start(st, ix, head) == Keep(st.keys, x => x in Start(st, ix, head))
  {
    var sel := ClauseSet(st, ix, head.text);
    var start := Start(st, ix, head);
    DedupOfNoDup(st.keys);
    if head.op == And {
      IntersectIsKeep(st.keys, sel, x => x in sel);
      KeepSameOn(st.keys, x => x in sel, x => x in start);
    } else {
      MinusIsKeep(st.keys, sel, x => x !in sel);
      KeepSameOn(st.keys, x => x !in sel, x => x in start);
    }
  }

  /** The clauses after the first act in groups, so their order in the
      search does not change which units are selected. */
  lemma ClauseOrderIrrelevant(st: LabelStore, ix: TagIndex, head: Clause, tail: seq<Clause>, tail': seq<Clause>)
    requires multiset(tail) == multiset(tail')
    ensures forall x :: x in Evaluate(st, ix, head, tail) <==> x in Evaluate(st, ix, head, tail')
  {
    assert forall c :: c in tail <==> c in multiset(tail);
    assert forall c :: c in tail' <==> c in multiset(tail');
  }

  /** An id that a `!` clause selects is never in the result, even when a
      `|` clause written after it selects the id again. */
  lemma NotBeatsOr(st: LabelStore, ix: TagIndex, head: Clause, tail: seq<Clause>, t: string, x: Id)
    requires Clause(Not, t) in tail && x in ClauseSet(st, ix, t)
    ensures x !in Evaluate(st, ix, head, tail)
  {
  }
}
