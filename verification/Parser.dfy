/** The parser as the source runs it: a cursor and a nesting depth that the productions advance. Each
    method computes what the function of the same name in `Grammar` says of the tokens at the cursor. */
module Parser {
  import opened Wrappers
  import opened ColumnTypes
  import opened Predicates
  import opened Normalisation
  import opened Lexer
  import opened Grammar

  /** A loop that collects has `done`; the rest of its outcome is `ahead`. */
  ghost predicate Collects<T>(all: Parsed<seq<T>>, done: seq<T>, ahead: Parsed<seq<T>>) {
    all == Prefixed(done, ahead)
  }

  function Prefixed<T>(done: seq<T>, ahead: Parsed<seq<T>>): Parsed<seq<T>> {
    if ahead.None? then None else Some((done + ahead.value.0, ahead.value.1))
  }

  lemma CollectsOne<T>(all: Parsed<seq<T>>, done: seq<T>, x: T, ahead: Parsed<seq<T>>)
    requires Collects(all, done, Prefixed([x], ahead))
    ensures Collects(all, done + [x], ahead)
  {
    if ahead.Some? {
      assert done + ([x] + ahead.value.0) == done + [x] + ahead.value.0;
    }
  }

  /** What `ParseValues` says once a comma is passed. */
  function AfterComma(g: Context, c: Column, ts: seq<Token>, count: nat): Parsed<seq<Option<string>>> {
    if count >= MAX_VALUES then None
    else
      var v :- ParseLiteral(g, c, ts);
      Prefixed([v.0], ParseValues(g, c, v.1, count + 1))
  }

  lemma ValuesUnfold(g: Context, c: Column, ts: seq<Token>, count: nat)
    ensures ParseValues(g, c, ts, count) == if Takes(ts, ",") then AfterComma(g, c, ts[1..], count) else Some(([], ts))
  {
  }

  class PredicateParser {
    const g: Context
    const tokens: seq<Token>
    var i: nat
    var depth: nat

    constructor (g: Context, tokens: seq<Token>)
      ensures this.g == g && this.tokens == tokens && i == 0 && depth == 0
    {
      this.g, this.tokens := g, tokens;
      i, depth := 0, 0;
    }

    ghost predicate Valid()
      reads this
    {
      i <= |tokens|
    }

    function Rest(): seq<Token>
      reads this
      requires Valid()
    {
      tokens[i..]
    }

    /** The outcome of a production that started at `before`: its value and the cursor behind it. */
    ghost predicate Ran<T>(expected: Parsed<T>, r: Option<T>, nesting: nat)
      reads this
      requires Valid()
    {
      match expected
      case None => r == None
      case Some((value, rest)) => r == Some(value) && Rest() == rest && depth == nesting
    }

    /** `take`: passes the keyword or symbol if it is next. */
    method Take(s: string) returns (taken: bool)
      requires Valid()
      modifies `i
      ensures Valid() && taken == Takes(old(Rest()), s)
      ensures Rest() == if taken then old(Rest())[1..] else old(Rest())
    {
      taken := Takes(tokens[i..], s);
      if taken {
        i := i + 1;
      }
    }

    method Literal(c: Column) returns (r: Option<Option<string>>)
      requires Valid()
      modifies `i
      ensures Valid() && Ran(ParseLiteral(g, c, old(Rest())), r, depth)
    {
      if i == |tokens| {
        return None;
      }
      var t := tokens[i];
      i := i + 1;
      if t.kind == WordToken && Chars.Upper(t.value) == "NULL" {
        return Some(None);
      }
      if t.kind == SymbolToken || t.kind == IdentifierToken {
        return None;
      }
      var v := TypedLiteral(g.readers, t.value, t.kind, c.kind);
      return if v.None? then None else Some(v);
    }

    /** A value behind a comma; `count` values are read already. */
    method NextValue(c: Column, count: nat) returns (r: Option<Option<string>>)
      requires Valid()
      modifies `i
      ensures Valid()
      ensures r.None? ==> AfterComma(g, c, old(Rest()), count) == None
      ensures r.Some? ==> old(i) < i && AfterComma(g, c, old(Rest()), count) == Prefixed([r.value], ParseValues(g, c, Rest(), count + 1))
    {
      if count >= MAX_VALUES {
        return None;
      }
      r := Literal(c);
    }

    /** The loop over the values of an IN list. */
    method Values(c: Column) returns (r: Option<seq<Option<string>>>)
      requires Valid()
      modifies `i
      ensures Valid() && Ran(ParseList(g, c, old(Rest())), r, depth)
    {
      var first := Literal(c);
      if first.None? {
        return None;
      }
      var values := [first.value];
      ghost var all := Prefixed(values, ParseValues(g, c, Rest(), 1));
      ghost var ahead := ParseValues(g, c, Rest(), 1);
      ValuesUnfold(g, c, Rest(), 1);
      var more := Take(",");
      while more
        invariant Valid() && Collects(all, values, ahead)
        invariant ahead == if more then AfterComma(g, c, Rest(), |values|) else Some(([], Rest()))
        decreases |tokens| - i, more
      {
        var v := NextValue(c, |values|);
        if v.None? {
          return None;
        }
        ahead := ParseValues(g, c, Rest(), |values| + 1);
        CollectsOne(all, values, v.value, ahead);
        values := values + [v.value];
        ValuesUnfold(g, c, Rest(), |values|);
        more := Take(",");
      }
      assert values + [] == values;
      return Some(values);
    }

    method Membership(c: Column) returns (r: Option<Predicate>)
      requires Valid()
      modifies `i
      ensures Valid() && Ran(ParseIn(g, c, old(Rest())), r, depth)
    {
      var scope := Take("SCOPE");
      var open := Take("(");
      if !open {
        return None;
      }
      if scope {
        if i == |tokens| || tokens[i].kind != WordToken {
          return None;
        }
        var domain := tokens[i].value;
        i := i + 1;
        var close := Take(")");
        return if close then Some(Scope(c.id, domain)) else None;
      }
      var values := Values(c);
      if values.None? {
        return None;
      }
      var close := Take(")");
      return if close then Some(In(c.id, values.value)) else None;
    }

    method Comparison(c: Column) returns (r: Option<Predicate>)
      requires Valid()
      modifies `i
      ensures Valid() && Ran(ParseComparison(g, c, old(Rest())), r, depth)
    {
      if i == |tokens| {
        return None;
      }
      var operator := ParseOperator(tokens[i].value);
      i := i + 1;
      if operator.None? {
        return None;
      }
      var v := Literal(c);
      return if v.None? then None else Some(Compare(c.id, operator.value, v.value));
    }

    method Test() returns (r: Option<Predicate>)
      requires Valid()
      modifies `i
      ensures Valid() && Ran(ParseTest(g, old(Rest())), r, depth)
    {
      if i == |tokens| {
        return None;
      }
      var token := tokens[i];
      i := i + 1;
      if token.kind != WordToken && token.kind != IdentifierToken {
        return None;
      }
      var found := FindName(g.columns, token.value);
      if found.None? || g.readers.family(found.value.kind) == Unsupported {
        return None;
      }
      r := Tail(found.value);
    }

    method Tail(c: Column) returns (r: Option<Predicate>)
      requires Valid()
      modifies `i
      ensures Valid() && Ran(ParseTail(g, c, old(Rest())), r, depth)
    {
      var is_ := Take("IS");
      if is_ {
        var negated := Take("NOT");
        var null_ := Take("NULL");
        return if null_ then Some(Null(c.id, negated)) else None;
      }
      var negate := Take("NOT");
      var in_ := Take("IN");
      if in_ {
        r := Membership(c);
        return if r.None? || !negate then r else Some(Not(r.value));
      }
      if negate {
        return None;
      }
      r := Comparison(c);
    }

    /** `atom`: the depth goes up on entry and down again on success. */
    method Atom() returns (r: Option<Predicate>)
      requires Valid()
      modifies `i, `depth
      ensures Valid() && Ran(ParseAtom(g, old(Rest()), old(depth)), r, old(depth))
      decreases |tokens| - i, 0
    {
      depth := depth + 1;
      if depth > MAX_DEPTH {
        return None;
      }
      var negation := Take("NOT");
      if negation {
        var term := Atom();
        if term.None? {
          return None;
        }
        r := Some(Not(term.value));
      } else {
        var open := Take("(");
        if open {
          r := Conjoined(Any);
          if r.None? {
            return None;
          }
          var close := Take(")");
          if !close {
            return None;
          }
        } else {
          r := Test();
          if r.None? {
            return None;
          }
        }
      }
      depth := depth - 1;
    }

    method Term(kind: GroupKind) returns (r: Option<Predicate>)
      requires Valid()
      modifies `i, `depth
      ensures Valid() && Ran(ParseTerm(g, kind, old(Rest()), old(depth)), r, old(depth))
      decreases |tokens| - i, if kind == All then 1 else 4
    {
      if kind == All {
        r := Atom();
      } else {
        r := Conjoined(All);
      }
    }

    /** `and` and `or`: the loop that collects terms between AND, or between OR. */
    method Conjoined(kind: GroupKind) returns (r: Option<Predicate>)
      requires Valid()
      modifies `i, `depth
      ensures Valid() && Ran(ParseGroup(g, kind, old(Rest()), old(depth)), r, old(depth))
      decreases |tokens| - i, if kind == All then 3 else 6
    {
      hide Grouped, Separator, ParseTerm;
      ghost var start := i;
      ghost var all := ParseTerms(g, kind, Rest(), depth);
      var first := Term(kind);
      if first.None? {
        return None;
      }
      var terms := [first.value];
      var more := Take(Separator(kind));
      while more
        invariant Valid() && terms != [] && depth == old(depth) && i > start
        invariant !more ==> all == Some((terms, Rest()))
        invariant more ==> Collects(all, terms, ParseTerms(g, kind, Rest(), depth))
        decreases |tokens| - i, more
      {
        var term := Term(kind);
        if term.None? {
          return None;
        }
        more := Take(Separator(kind));
        if more {
          CollectsOne(all, terms, term.value, ParseTerms(g, kind, Rest(), depth));
        }
        terms := terms + [term.value];
      }
      return Some(Grouped(kind, terms));
    }
  }

  method ParsePredicate(g: Context, expression: string) returns (r: Option<Predicate>)
    ensures r == Parse(g, expression)
  {
    if IsBlank(expression) || Chars.Utf16Length(expression) > MAX_LENGTH {
      return None;
    }
    var tokens := Lex(expression);
    if tokens.None? {
      return None;
    }
    var parser := new PredicateParser(g, tokens.value);
    assert parser.Rest() == tokens.value;
    var p := parser.Conjoined(Any);
    if p.None? || parser.i != |tokens.value| {
      return None;
    }
    var normal := Normalise(p.value);
    return if SchemaOk(normal) then Some(normal) else None;
  }
}
