/** The recursive parser of `stagingType` with its cursor. */
module StagingParser {
  import opened Wrappers
  import opened Chars
  import opened StagingTypes

  function Join(parts: seq<string>): string {
    if parts == [] then "" else if |parts| == 1 then parts[0] else parts[0] + ", " + Join(parts[1..])
  }

  /** The entries pushed to `fields`, and the trees they stand for. */
  ghost predicate Pushed(parts: seq<string>, fields: seq<Field>) {
    |parts| == |fields| && forall i | 0 <= i < |parts| :: parts[i] == Quoted(fields[i].name) + Duck(fields[i].kind)
  }

  lemma {:induction false} JoinedFields(parts: seq<string>, fields: seq<Field>)
    requires Pushed(parts, fields)
    ensures Join(parts) == DuckFields(fields)
    decreases |parts|
  {
    if |parts| > 1 {
      assert Pushed(parts[1..], fields[1..]);
      JoinedFields(parts[1..], fields[1..]);
      assert parts[0] + (", " + Join(parts[1..])) == parts[0] + ", " + Join(parts[1..]);
    } else if |parts| == 1 {
      assert parts[0] + "" == parts[0];
    }
  }

  /** The fields read so far in front of those still to be read. */
  ghost function After(fields: seq<Field>, r: Option<(seq<Field>, string)>): Option<(seq<Field>, string)> {
    if r.None? then None else Some((fields + r.value.0, r.value.1))
  }

  lemma AfterNothing(r: Option<(seq<Field>, string)>)
    ensures After([], r) == r
  {
    if r.Some? {
      assert [] + r.value.0 == r.value.0;
    }
  }

  lemma AfterMore(fields: seq<Field>, f: Field, r: Option<(seq<Field>, string)>)
    ensures After(fields, After([f], r)) == After(fields + [f], r)
  {
    if r.Some? {
      assert fields + ([f] + r.value.0) == fields + [f] + r.value.0;
    }
  }

  /** What stands behind a field: the end, or a comma and more fields. */
  ghost function ReadFieldsRest(s: string, depth: nat): (r: Option<(seq<Field>, string)>)
    requires depth <= MAX_DEPTH + 1
  {
    if StartsWith(s, ")") then Some(([], s[1..]))
    else if StartsWith(s, ", ") then ReadFields(s[2..], depth)
    else None
  }

  lemma ReadFieldsStep(s: string, depth: nat)
    requires depth <= MAX_DEPTH + 1 && ReadQuoted(s).Some?
    ensures var (name, rest) := ReadQuoted(s).value;
      ReadFields(s, depth) == if ReadType(rest, depth).None? then None
        else After([Field(name, ReadType(rest, depth).value.0)], ReadFieldsRest(ReadType(rest, depth).value.1, depth))
  {
    QuotedShorter(s);
    assert forall fields: seq<Field> :: fields + [] == fields;
  }

  lemma TranslateDuck(t: Tree)
    ensures Translate(t).duck == Duck(t)
  {
  }

  /** The translation is put together from those of the parts. */
  lemma TranslateParts(element: Tree, fields: seq<Field>, p: string, s: string, name: string)
    ensures var inner := Translate(element);
      Translate(List(element)) ==
      Translation(inner.duck + "[]", if inner.postgres.Some? then Some(inner.postgres.value + "[]") else None, true)
    ensures Translate(Struct(fields)) == Translation("STRUCT(" + DuckFields(fields) + ")", None, true)
    ensures Translate(Decimal(p, s)) == Translation(DecimalText(p, s), Some(DecimalText(p, s)), false)
    ensures Translate(Scalar(name)) == Translation(name, Some(PostgresScalar(name)), name == "JSON")
  {
  }

  lemma TooDeep(s: string, depth: nat)
    requires depth == MAX_DEPTH + 1
    ensures ReadType(s, depth) == None
  {
  }

  lemma SkipDecimal(s: string)
    requires ReadDecimal(s).Some?
    ensures var (p, q, rest) := ReadDecimal(s).value;
      |DecimalText(p, q)| <= |s| && s[|DecimalText(p, q)|..] == rest
  {
    ReadDecimalSound(s);
  }

  /** The branches of the grammar by what the text starts with. */
  lemma ReadTypeCases(s: string, depth: nat)
    requires depth <= MAX_DEPTH
    ensures StartsWith(s, "LIST(") ==> |s| >= 5 && ReadType(s, depth) == ClosedList(ReadType(s[5..], depth + 1))
    ensures StartsWith(s, "STRUCT(") ==> |s| >= 7 && !StartsWith(s, "LIST(") && ReadType(s, depth) == WholeStruct(ReadFields(s[7..], depth + 1))
    ensures !StartsWith(s, "LIST(") && !StartsWith(s, "STRUCT(") ==> 
      ReadType(s, depth) == if ReadDecimal(s).Some? then Bounded(ReadDecimal(s).value) else NamedScalar(s, FirstPrefix(SCALARS, s))
  {
    hide ReadDecimal, BoundsOk, FirstPrefix, ReadFields;
    KeywordLengths();
    OneKeyword(s);
    if FirstPrefix(SCALARS, s).Some? {
      ScalarsNotEmpty(FirstPrefix(SCALARS, s).value);
    }
  }

  ghost function ClosedList(r: Option<(Tree, string)>): Option<(Tree, string)> {
    if r.Some? && StartsWith(r.value.1, ")") then Some((List(r.value.0), r.value.1[1..])) else None
  }

  ghost function WholeStruct(r: Option<(seq<Field>, string)>): Option<(Tree, string)> {
    if r.Some? then Some((Struct(r.value.0), r.value.1)) else None
  }

  ghost function Bounded(d: (string, string, string)): Option<(Tree, string)> {
    if BoundsOk(d.0, d.1) then Some((Decimal(d.0, d.1), d.2)) else None
  }

  ghost function NamedScalar(s: string, name: Option<string>): Option<(Tree, string)>
    requires name.Some? ==> StartsWith(s, name.value)
  {
    if name.Some? then Some((Scalar(name.value), s[|name.value|..])) else None
  }

  class TypeParser {
    const input: string
    var at: nat

    constructor (input: string)
      ensures this.input == input && at == 0
    {
      this.input := input;
      at := 0;
    }

    ghost predicate Valid()
      reads this
    {
      at <= |input|
    }

    ghost function Rest(): string
      reads this
      requires Valid()
    {
      input[at..]
    }

    method Take(s: string) returns (taken: bool)
      requires Valid()
      modifies this
      ensures Valid() && taken == StartsWith(old(Rest()), s)
      ensures |Rest()| == |old(Rest())| - if taken then |s| else 0
      ensures Rest() == if taken then old(Rest())[|s|..] else old(Rest())
    {
      taken := StartsWith(input[at..], s);
      if taken {
        at := at + |s|;
      }
    }

    /** Moves past what was matched. */
    method Skip(ghost rest: string, length: nat)
      requires Valid() && length <= |Rest()| && rest == Rest()[length..]
      modifies this
      ensures Valid() && Rest() == rest
    {
      at := at + length;
    }

    method Parse(depth: nat) returns (r: Option<Translation>)
      requires Valid() && depth <= MAX_DEPTH + 1
      modifies this
      ensures Valid()
      ensures var spec := ReadType(old(Rest()), depth);
        r == if spec.Some? then Some(Translate(spec.value.0)) else None
      ensures r.Some? ==> Rest() == ReadType(old(Rest()), depth).value.1
      decreases MAX_DEPTH + 1 - depth, 0
    {
      hide StartsWith, ReadDecimal, BoundsOk, FirstPrefix, ReadFields, ReadType, Translate, DecimalText,
        PostgresScalar, DuckFields;
      if depth > MAX_DEPTH {
        TooDeep(Rest(), depth);
        return None;
      }
      ghost var text := Rest();
      ReadTypeCases(text, depth);
      KeywordLengths();
      var list := Take("LIST(");
      if list {
        var inner := Parse(depth + 1);
        if inner.None? {
          return None;
        }
        TranslateParts(ReadType(text[5..], depth + 1).value.0, [], "", "", "");
        var closed := Take(")");
        if !closed {
          return None;
        }
        return Some(Translation(inner.value.duck + "[]",
          if inner.value.postgres.Some? then Some(inner.value.postgres.value + "[]") else None, true));
      }
      var struct := Take("STRUCT(");
      if struct {
        var fields := ParseFields(depth + 1);
        if fields.None? {
          return None;
        }
        TranslateParts(Scalar(""), ReadFields(text[7..], depth + 1).value.0, "", "", "");
        return Some(Translation("STRUCT(" + fields.value + ")", None, true));
      }
      var decimal := ReadDecimal(input[at..]);
      if decimal.Some? {
        var (p, s, rest) := decimal.value;
        if !BoundsOk(p, s) {
          return None;
        }
        SkipDecimal(input[at..]);
        TranslateParts(Scalar(""), [], p, s, "");
        Skip(rest, |DecimalText(p, s)|);
        return Some(Translation(DecimalText(p, s), Some(DecimalText(p, s)), false));
      }
      var scalar := FirstPrefix(SCALARS, input[at..]);
      if scalar.None? {
        return None;
      }
      var duck := scalar.value;
      Split(text, duck);
      TranslateParts(Scalar(""), [], "", "", duck);
      Skip(Rest()[|duck|..], |duck|);
      return Some(Translation(duck, Some(PostgresScalar(duck)), duck == "JSON"));
    }

    /** The loop over the fields; the joined entries, or none where the source returns null. */
    method ParseFields(depth: nat) returns (r: Option<string>)
      requires Valid() && depth <= MAX_DEPTH + 1
      modifies this
      ensures Valid()
      ensures var spec := ReadFields(old(Rest()), depth);
        r == if spec.Some? then Some(DuckFields(spec.value.0)) else None
      ensures r.Some? ==> Rest() == ReadFields(old(Rest()), depth).value.1
      decreases MAX_DEPTH + 1 - depth, 1
    {
      hide StartsWith, ReadQuoted, ReadType, Translate, Quoted, DuckFields, Join;
      var parts: seq<string> := [];
      ghost var fields: seq<Field> := [];
      AfterNothing(ReadFields(Rest(), depth));
      while true
        invariant Valid() && Pushed(parts, fields)
        invariant ReadFields(old(Rest()), depth) == After(fields, ReadFields(Rest(), depth))
        decreases |Rest()|
      {
        ghost var before := Rest();
        var name := ReadQuoted(input[at..]);
        if name.None? {
          return None;
        }
        ReadQuotedSound(input[at..]);
        QuotedShorter(input[at..]);
        Skip(name.value.1, |Quoted(name.value.0)|);
        var kind := Parse(depth);
        if kind.None? {
          return None;
        }
        ReadFieldsStep(before, depth);
        ghost var f := Field(name.value.0, ReadType(name.value.1, depth).value.0);
        parts := parts + [Quoted(name.value.0) + kind.value.duck];
        TranslateDuck(f.kind);
        AfterMore(fields, f, ReadFieldsRest(Rest(), depth));
        fields := fields + [f];
        var closed := Take(")");
        if closed {
          JoinedFields(parts, fields);
          assert fields + [] == fields;
          return Some(Join(parts));
        }
        var more := Take(", ");
        if !more {
          return None;
        }
      }
    }
  }

  /** `stagingType`: the translation of the tree the input prints, or null if it prints none. */
  method StagingType(input: string) returns (r: Option<Translation>)
    ensures r == if Accepted(input).Some? then Some(Translate(Accepted(input).value)) else None
  {
    hide ReadType, Translate;
    var parser := new TypeParser(input);
    assert input[0..] == input;
    r := parser.Parse(0);
    if parser.at != |input| {
      return None;
    }
    assert parser.Rest() == "";
  }
}
