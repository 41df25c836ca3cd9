/** Texts that people write and the printer does not: without brackets around AND, with NOT in front of
    IN, with plain words for column names, and with keywords in any case. */
module Notation {
  import opened Wrappers
  import opened Ordering
  import opened Chars
  import opened ColumnTypes
  import opened Predicates
  import opened Lexer
  import opened Grammar
  import opened RoundTrip
  import Reparse

  // ----- AND binds tighter than OR -----

  ghost predicate GroupPrintable(g: Context, terms: seq<Predicate>) {
    terms != [] && forall t | t in terms :: Printable(g, t) && Known(t, g.columns)
  }

  ghost predicate GroupsPrintable(g: Context, groups: seq<seq<Predicate>>) {
    forall k | 0 <= k < |groups| :: GroupPrintable(g, groups[k])
  }

  /** A disjunction of conjunctions without brackets. */
  ghost function Unbracketed(g: Context, groups: seq<seq<Predicate>>): string
    requires groups != [] && GroupsPrintable(g, groups)
  {
    if |groups| == 1 then PrintedTerms(g, All, groups[0])
    else PrintedTerms(g, All, groups[0]) + Spaced("OR" + Spaced(Unbracketed(g, groups[1..])))
  }

  ghost function UnbracketedTokens(g: Context, groups: seq<seq<Predicate>>): seq<Token>
    requires groups != [] && GroupsPrintable(g, groups)
  {
    if |groups| == 1 then TokensOfTerms(g, All, groups[0])
    else TokensOfTerms(g, All, groups[0]) + ([WordOf("OR")] + UnbracketedTokens(g, groups[1..]))
  }

  predicate GroupsFit(groups: seq<seq<Predicate>>, depth: nat) {
    forall k | 0 <= k < |groups| :: AllFit(groups[k], depth)
  }

  ghost function Conjunctions(g: Context, groups: seq<seq<Predicate>>): (r: seq<Predicate>)
    requires GroupsPrintable(g, groups)
    ensures |r| == |groups|
  {
    if groups == [] then [] else [Grouped(All, groups[0])] + Conjunctions(g, groups[1..])
  }

  lemma {:induction false} ReadsUnbracketed(g: Context, groups: seq<seq<Predicate>>)
    requires groups != [] && ColumnsOk(g.columns) && GroupsPrintable(g, groups)
    ensures Reads(Unbracketed(g, groups), UnbracketedTokens(g, groups), false)
    decreases |groups|
  {
    hide Reads, Printable, Known;
    assert GroupPrintable(g, groups[0]);
    ReadsTerms(g, All, groups[0]);
    if |groups| > 1 {
      ReadsUnbracketed(g, groups[1..]);
      var s, t := Unbracketed(g, groups[1..]), UnbracketedTokens(g, groups[1..]);
      ReadsWordThen("OR", s, t, false);
      ReadsSpaced("OR" + Spaced(s), [WordOf("OR")] + t, false);
      ReadsThen(PrintedTerms(g, All, groups[0]), TokensOfTerms(g, All, groups[0]), false,
        Spaced("OR" + Spaced(s)), [WordOf("OR")] + t, false);
    }
  }

  lemma GroupUnfold(g: Context, ts: seq<Token>, depth: nat)
    ensures ParseTerm(g, Any, ts, depth) ==
      var r := ParseTerms(g, All, ts, depth);
      if r.None? then None else Some((Grouped(All, r.value.0), r.value.1))
  {
  }

  lemma FitSplit(groups: seq<seq<Predicate>>, depth: nat)
    requires groups != []
    ensures GroupsFit(groups, depth) <==> AllFit(groups[0], depth) && GroupsFit(groups[1..], depth)
  {
    hide AllFit;
    if AllFit(groups[0], depth) && GroupsFit(groups[1..], depth) {
      forall k | 0 <= k < |groups|
        ensures AllFit(groups[k], depth)
      {
        assert k > 0 ==> groups[1..][k - 1] == groups[k];
      }
    }
  }

  lemma RereadGrouped(g: Context, kind: GroupKind, terms: seq<Predicate>)
    requires terms != []
    ensures Reread(g, Grouped(kind, terms)) ==
      if RereadAll(g, terms).None? then None else Some(Grouped(kind, RereadAll(g, terms).value))
  {
    if |terms| == 1 {
      RereadOne(g, terms);
    }
  }

  lemma {:induction false} ParsesGroups(g: Context, groups: seq<seq<Predicate>>, rest: seq<Token>, depth: nat)
    requires groups != [] && ColumnsOk(g.columns) && GroupsPrintable(g, groups)
    requires !Takes(rest, "AND") && !Takes(rest, "OR")
    ensures ParseTerms(g, Any, UnbracketedTokens(g, groups) + rest, depth)
      == Outcome(GroupsFit(groups, depth), RereadAll(g, Conjunctions(g, groups)), rest)
    decreases |groups|
  {
    hide Printable, Known, AllFit, Takes, TokensOfTerms, GroupsFit;
    assert GroupPrintable(g, groups[0]);
    var first, ts := TokensOfTerms(g, All, groups[0]), UnbracketedTokens(g, groups) + rest;
    TermsUnfold(g, Any, ts, depth);
    GroupUnfold(g, ts, depth);
    FitSplit(groups, depth);
    if |groups| == 1 {
      NothingFits(depth);
      assert groups[1..] == [];
      assert Conjunctions(g, groups) == [Grouped(All, groups[0])];
      RereadOne(g, Conjunctions(g, groups));
      RereadGrouped(g, All, groups[0]);
      assert Separator(Any) == "OR";
      ParsesTerms(g, All, groups[0], rest, depth);
    } else {
      var more := UnbracketedTokens(g, groups[1..]);
      Associated(first, [WordOf("OR")] + more, rest);
      Associated([WordOf("OR")], more, rest);
      TakesSeparator(Any, more + rest);
      ParsesTerms(g, All, groups[0], [WordOf("OR")] + (more + rest), depth);
      ParsesGroups(g, groups[1..], rest, depth);
      RereadGrouped(g, All, groups[0]);
    }
  }

  lemma NothingFits(depth: nat)
    ensures GroupsFit([], depth)
  {
  }

  /** A text without brackets is lexed and parsed as the disjunction of its conjunctions. */
  lemma AndBindsTighter(g: Context, groups: seq<seq<Predicate>>)
    requires groups != [] && ColumnsOk(g.columns) && GroupsPrintable(g, groups)
    ensures Tokens(Unbracketed(g, groups)) == Some(UnbracketedTokens(g, groups))
    ensures ParseGroup(g, Any, UnbracketedTokens(g, groups), 0)
      == Outcome(GroupsFit(groups, 0), Reread(g, Grouped(Any, Conjunctions(g, groups))), [])
  {
    hide Reads, UnbracketedTokens, Unbracketed, Tokens, GroupsFit;
    var text, ts := Unbracketed(g, groups), UnbracketedTokens(g, groups);
    ReadsUnbracketed(g, groups);
    ReadsAt(text, ts, false, "");
    assert text + "" == text && ts + [] == ts;
    EmptyTokens();
    ParsesGroups(g, groups, [], 0);
    RereadGrouped(g, Any, Conjunctions(g, groups));
  }

  lemma EmptyTokens()
    ensures Tokens("") == Some([])
  {
  }

  // ----- Spellings -----

  /** A token that may name a column: a quoted name, or a word that is not NOT. */
  predicate NamesColumn(t: Token) {
    t.kind == IdentifierToken || (t.kind == WordToken && IsWord(t.value) && Upper(t.value) != "NOT")
  }

  lemma NotKeyword(column: Token, rest: seq<Token>)
    requires NamesColumn(column)
    ensures !Takes([column] + rest, "NOT") && !Takes([column] + rest, "(")
  {
    if column.kind == WordToken {
      assert IsWordStart(column.value[0]);
      assert Upper(column.value)[0] == UpperChar(column.value[0]) && "("[0] == '(';
    }
  }

  lemma ColumnAtom(g: Context, column: Token, rest: seq<Token>, depth: nat)
    requires depth + 1 <= MAX_DEPTH && NamesColumn(column)
    ensures ParseAtom(g, [column] + rest, depth) ==
      var c := FindName(g.columns, column.value);
      if c.None? || g.readers.family(c.value.kind) == Unsupported then None else ParseTail(g, c.value, rest)
  {
    hide ParseTail, FindName;
    NotKeyword(column, rest);
    assert ([column] + rest)[1..] == rest;
  }

  lemma TailOfIn(g: Context, c: Column, n: Token, i: Token, rest: seq<Token>)
    requires n.kind == i.kind == WordToken && Upper(n.value) == "NOT" && Upper(i.value) == "IN"
    ensures ParseTail(g, c, [i] + rest) == ParseIn(g, c, rest)
    ensures var p := ParseIn(g, c, rest);
      ParseTail(g, c, [n] + ([i] + rest)) == if p.None? then None else Some((Not(p.value.0), p.value.1))
  {
    hide ParseIn;
    KeywordsDiffer();
    assert ([i] + rest)[1..] == rest && ([n] + ([i] + rest))[1..] == [i] + rest;
  }

  lemma KeywordsDiffer()
    ensures "NOT" != "IS" && "IN" != "IS" && "IN" != "NOT"
  {
    assert |"NOT"| == 3 && |"IS"| == 2 && |"IN"| == 2;
    assert "IS"[1] == 'S' && "IN"[1] == 'N';
  }

  /** `column NOT IN ...` is `NOT column IN ...`, whatever the case of the keywords. */
  lemma NotIn(g: Context, column: Token, n: Token, i: Token, rest: seq<Token>, depth: nat)
    requires depth + 2 <= MAX_DEPTH && NamesColumn(column)
    requires n.kind == i.kind == WordToken && Upper(n.value) == "NOT" && Upper(i.value) == "IN"
    ensures ParseAtom(g, [column] + ([n] + ([i] + rest)), depth) == ParseAtom(g, [n] + ([column] + ([i] + rest)), depth)
  {
    hide ParseIn, FindName, ParseTail;
    var inner := [column] + ([i] + rest);
    ColumnAtom(g, column, [n] + ([i] + rest), depth);
    ColumnAtom(g, column, [i] + rest, depth + 1);
    assert ([n] + inner)[1..] == inner;
    Reparse.ParsesNot(g, [n] + inner, depth);
    var c := FindName(g.columns, column.value);
    if c.Some? {
      TailOfIn(g, c.value, n, i, rest);
    }
  }

  /** A column may be named by a plain word as well as by a quoted name, but a quoted name is never a keyword. */
  lemma PlainName(g: Context, name: string, rest: seq<Token>, depth: nat)
    requires depth + 1 <= MAX_DEPTH && IsWord(name) && Upper(name) != "NOT"
    ensures ParseAtom(g, [Token(WordToken, name)] + rest, depth) == ParseAtom(g, [Token(IdentifierToken, name)] + rest, depth)
  {
    hide ParseTail, FindName;
    ColumnAtom(g, Token(WordToken, name), rest, depth);
    ColumnAtom(g, Token(IdentifierToken, name), rest, depth);
  }
}
