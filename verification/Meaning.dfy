/** What a predicate means on a row, said of the cells and the values they stand for, and that evaluation
    computes exactly this. */
module Meaning {
  import opened Wrappers
  import opened Chars
  import opened ColumnTypes
  import opened Predicates
  import opened Evaluation

  // ----- Cells as texts -----

  /** `String(raw)` */
  ghost predicate CellText(raw: Raw, text: string) {
    match raw
    case RawNull => text == "null"
    case RawBool(true) => text == "true"
    case RawBool(false) => text == "false"
    case RawText(t) => text == t
  }

  /** The first space becomes `T`, if there is one. */
  ghost predicate IsoStart(text: string, iso: string) {
    || (' ' !in text && iso == text)
    || (exists a, b :: Spaced(text, iso, a, b))
  }

  ghost predicate Spaced(text: string, iso: string, a: string, b: string) {
    text == a + " " + b && ' ' !in a && iso == a + "T" + b
  }

  /** It ends in a sign and two digits. */
  ghost predicate ShortZone(iso: string) {
    exists a, sign, d, e :: ZoneAt(iso, a, sign, d, e)
  }

  ghost predicate ZoneAt(iso: string, a: string, sign: char, d: char, e: char) {
    iso == a + [sign, d, e] && (sign == '+' || sign == '-') && '0' <= d <= '9' && '0' <= e <= '9'
  }

  /** A cell as a temporal literal of its column's type. */
  ghost predicate TemporalCell(text: string, kind: string, literal: string) {
    exists iso :: IsoStart(text, iso) && literal == if kind == "TIMESTAMPTZ" && ShortZone(iso) then iso + ":00" else iso
  }

  // ----- Where a cell stands to a literal -----

  datatype Side = Under | Same | Over

  ghost predicate IntegerSide(a: int, b: int, side: Side) {
    match side
    case Under => a < b
    case Same => a == b
    case Over => b < a
  }

  ghost predicate MagnitudeUnder(a: Magnitude, b: Magnitude) {
    || (a.Finite? && b.Finite? && a.value < b.value)
    || (a.MinusInfinity? && !b.MinusInfinity?)
    || (b.PlusInfinity? && !a.PlusInfinity?)
  }

  ghost predicate MagnitudeSide(a: Magnitude, b: Magnitude, side: Side) {
    match side
    case Under => MagnitudeUnder(a, b)
    case Same => a == b
    case Over => MagnitudeUnder(b, a)
  }

  /** The first character that differs is smaller, or the text is a proper beginning of the other. */
  ghost predicate TextUnder(a: string, b: string) {
    exists k :: DiffersAt(a, b, k)
  }

  ghost predicate DiffersAt(a: string, b: string, k: nat) {
    k <= |a| && k < |b| && a[..k] == b[..k] && (k == |a| || a[k] < b[k])
  }

  ghost predicate TextSide(a: string, b: string, side: Side) {
    match side
    case Under => TextUnder(a, b)
    case Same => a == b
    case Over => TextUnder(b, a)
  }

  ghost predicate InfinityCell(text: string) {
    InfinityWord(text) || (text != "" && (text[0] == '+' || text[0] == '-') && InfinityWord(text[1..]))
  }

  ghost predicate InfinityWord(text: string) {
    |text| == 8 && forall i | 0 <= i < 8 :: text[i] == "infinity"[i] || text[i] == "INFINITY"[i]
  }

  ghost predicate TrueCell(raw: Raw) {
    raw == RawBool(true) || raw == RawText("true") || raw == RawText("t")
  }

  ghost predicate FalseCell(raw: Raw) {
    raw == RawBool(false) || raw == RawText("false") || raw == RawText("f")
  }

  /** Where the cell stands to the literal in a column of the type; nowhere if one of them cannot be read. */
  ghost predicate Stands(r: Readers, raw: Raw, literal: string, kind: string, side: Side) {
    exists text :: CellText(raw, text) && TextStands(r, raw, text, literal, kind, side)
  }

  ghost predicate TextStands(r: Readers, raw: Raw, text: string, literal: string, kind: string, side: Side) {
    match r.family(kind)
    case Number => if text == "NaN" then side.Over? else NumberStands(r.exact(text), r.exact(literal), side)
    case Float =>
      if text == "NaN" then side.Over?
      else if InfinityCell(text) then side == (if text[0] == '-' then Under else Over)
      else NumberStands(r.binary(text, kind), r.exact(literal), side)
    case Time =>
      if InfinityCell(text) then side == (if text[0] == '-' then Under else Over)
      else exists cell :: TemporalCell(text, kind, cell) && InstantStands(r.instant(cell, kind), r.instant(literal, kind), side)
    case Boolean =>
      || (TrueCell(raw) && side == (if literal == "true" then Same else Over))
      || (FalseCell(raw) && side == (if literal == "true" then Under else Same))
    case _ => TextSide(text, literal, side)
  }

  ghost predicate NumberStands(a: Option<Magnitude>, b: Option<Magnitude>, side: Side) {
    a.Some? && b.Some? && MagnitudeSide(a.value, b.value, side)
  }

  ghost predicate InstantStands(a: Option<int>, b: Option<int>, side: Side) {
    a.Some? && b.Some? && IntegerSide(a.value, b.value, side)
  }

  // ----- Comparisons compute it -----

  function SideOf(n: int): Side {
    if n < 0 then Under else if n == 0 then Same else Over
  }

  lemma CellTextExact(raw: Raw, text: string)
    ensures CellText(raw, text) <==> text == StringOf(raw)
  {
  }

  lemma SpacedPlace(text: string, iso: string, a: string, b: string)
    requires Spaced(text, iso, a, b)
    ensures |a| < |text| && text[|a|] == ' ' && ' ' !in text[..|a|] && a == text[..|a|] && b == text[|a| + 1..]
  {
  }

  lemma OneFirstSpace(text: string, i: nat, j: nat)
    requires i < |text| && text[i] == ' ' && ' ' !in text[..i]
    requires j < |text| && text[j] == ' ' && ' ' !in text[..j]
    ensures i == j
  {
  }

  lemma SpaceToTExact(text: string)
    ensures forall iso :: IsoStart(text, iso) <==> iso == SpaceToT(text)
  {
    if ' ' !in text {
      NoSpace(text);
      forall iso, a, b
        ensures !Spaced(text, iso, a, b)
      {
        if Spaced(text, iso, a, b) {
          SpacedPlace(text, iso, a, b);
        }
      }
    } else {
      var k := FirstSpace(text);
      forall a, b, iso | Spaced(text, iso, a, b)
        ensures a == text[..k] && b == text[k + 1..]
      {
        SpacedPlace(text, iso, a, b);
        OneFirstSpace(text, |a|, k);
      }
      assert text == text[..k] + " " + text[k + 1..];
      assert Spaced(text, SpaceToT(text), text[..k], text[k + 1..]);
    }
  }

  lemma {:induction false} NoSpace(text: string)
    requires ' ' !in text
    ensures SpaceToT(text) == text
  {
    if text != "" {
      assert text == [text[0]] + text[1..] && text[0] in text;
      NoSpace(text[1..]);
    }
  }

  lemma {:induction false} FirstSpace(text: string) returns (k: nat)
    requires ' ' in text
    ensures k < |text| && text[k] == ' ' && ' ' !in text[..k]
    ensures SpaceToT(text) == text[..k] + "T" + text[k + 1..]
  {
    if text[0] == ' ' {
      k := 0;
    } else {
      assert text == [text[0]] + text[1..];
      var j := FirstSpace(text[1..]);
      k := j + 1;
      assert text[..k] == [text[0]] + text[1..][..j] && text[k + 1..] == text[1..][j + 1..];
    }
  }

  lemma ShortZoneExact(iso: string)
    ensures ShortZone(iso) <==>
      var n := |iso|;
      n >= 3 && iso[n - 3] in "+-" && IsDigit(iso[n - 2]) && IsDigit(iso[n - 1])
  {
    var n := |iso|;
    if n >= 3 && iso[n - 3] in "+-" && IsDigit(iso[n - 2]) && IsDigit(iso[n - 1]) {
      assert iso == iso[..n - 3] + [iso[n - 3], iso[n - 2], iso[n - 1]];
      assert ZoneAt(iso, iso[..n - 3], iso[n - 3], iso[n - 2], iso[n - 1]);
    }
  }

  lemma TemporalCellExact(raw: Raw, kind: string)
    ensures forall cell :: TemporalCell(StringOf(raw), kind, cell) <==> cell == TemporalText(raw, kind)
  {
    hide ShortZone, IsoStart;
    SpaceToTExact(StringOf(raw));
    ShortZoneExact(SpaceToT(StringOf(raw)));
  }

  lemma InfinityExact(text: string)
    ensures InfinityCell(text) <==> IsInfinity(text)
  {
    if text != "" {
      InfinityWordExact(text);
      InfinityWordExact(text[1..]);
    }
  }

  lemma InfinityWordExact(text: string)
    ensures InfinityWord(text) <==> Lower(text) == "infinity"
  {
    var lower := "infinity";
    if |text| == 8 {
      forall i | 0 <= i < 8
        ensures LowerChar(text[i]) == lower[i] <==> text[i] == lower[i] || text[i] == "INFINITY"[i]
      {
      }
    }
  }

  lemma {:induction false} BytesExact(a: string, b: string)
    ensures TextUnder(a, b) <==> CompareBytes(a, b) < 0
    ensures a == b <==> CompareBytes(a, b) == 0
    ensures TextUnder(b, a) <==> CompareBytes(a, b) > 0
  {
    if a == "" || b == "" {
      if b != "" {
        assert DiffersAt(a, b, 0);
      }
      if a != "" {
        assert DiffersAt(b, a, 0);
      }
    } else if a[0] == b[0] {
      BytesExact(a[1..], b[1..]);
      UnderTail(a, b);
      UnderTail(b, a);
      assert a == [a[0]] + a[1..] && b == [b[0]] + b[1..];
    } else {
      UnderHead(a, b);
      UnderHead(b, a);
    }
  }

  lemma UnderHead(a: string, b: string)
    requires a != "" && b != "" && a[0] != b[0]
    ensures TextUnder(a, b) <==> a[0] < b[0]
  {
    forall k: nat | DiffersAt(a, b, k)
      ensures k == 0
    {
    }
    assert a[..0] == b[..0];
    assert DiffersAt(a, b, 0) <==> a[0] < b[0];
  }

  lemma UnderTail(a: string, b: string)
    requires a != "" && b != "" && a[0] == b[0]
    ensures TextUnder(a, b) <==> TextUnder(a[1..], b[1..])
  {
    var c, s, t := a[0], a[1..], b[1..];
    assert a == [c] + s && b == [c] + t;
    hide DiffersAt;
    if k: nat :| DiffersAt(a, b, k) {
      DiffersPastHead(c, s, t, k);
    }
    if k: nat :| DiffersAt(s, t, k) {
      DiffersPastHead(c, s, t, k + 1);
    }
  }

  lemma DiffersPastHead(c: char, s: string, t: string, k: nat)
    ensures DiffersAt([c] + s, [c] + t, k) <==> k > 0 && DiffersAt(s, t, k - 1)
  {
    if 0 < k <= |s| + 1 && k <= |t| + 1 {
      HeadPrefix(c, s, k);
      HeadPrefix(c, t, k);
      assert s[..k - 1] == ([c] + s[..k - 1])[1..] && t[..k - 1] == ([c] + t[..k - 1])[1..];
    }
  }

  lemma HeadPrefix(c: char, s: string, k: nat)
    requires 0 < k <= |s| + 1
    ensures ([c] + s)[..k] == [c] + s[..k - 1]
  {
  }

  ghost predicate OnSide(n: Option<int>, side: Side) {
    n.Some? && SideOf(n.value) == side
  }

  lemma NumberExact(a: Option<Magnitude>, b: Option<Magnitude>, side: Side)
    ensures NumberStands(a, b, side) <==> a.Some? && b.Some? && OnSide(Some(CompareMagnitude(a.value, b.value)), side)
  {
  }

  lemma InstantExact(a: Option<int>, b: Option<int>, side: Side)
    ensures InstantStands(a, b, side)
      <==> a.Some? && b.Some? && OnSide(Some(if a.value < b.value then -1 else if a.value == b.value then 0 else 1), side)
  {
  }

  lemma TextExact(a: string, b: string, side: Side)
    ensures TextSide(a, b, side) <==> OnSide(Some(CompareBytes(a, b)), side)
  {
    hide TextUnder, CompareBytes;
    BytesExact(a, b);
  }

  lemma BooleanExact(r: Readers, raw: Raw, text: string, literal: string, kind: string, side: Side)
    requires r.family(kind) == Boolean && text == StringOf(raw)
    ensures TextStands(r, raw, text, literal, kind, side) <==> OnSide(CompareCell(r, raw, literal, kind), side)
  {
  }

  lemma NumericExact(r: Readers, raw: Raw, text: string, literal: string, kind: string, side: Side)
    requires (r.family(kind) == Number || r.family(kind) == Float) && text == StringOf(raw)
    ensures TextStands(r, raw, text, literal, kind, side) <==> OnSide(CompareCell(r, raw, literal, kind), side)
  {
    hide InfinityCell, IsInfinity, CompareMagnitude, NumberStands, StringOf;
    InfinityExact(text);
    InfinityNotEmpty(text);
    NumberExact(r.exact(text), r.exact(literal), side);
    NumberExact(r.binary(text, kind), r.exact(literal), side);
  }

  lemma InfinityNotEmpty(text: string)
    ensures IsInfinity(text) ==> text != "" && text != "NaN"
  {
    assert |Lower(text)| == |text| && (text != "" ==> |Lower(text[1..])| == |text| - 1);
  }

  lemma TimeExact(r: Readers, raw: Raw, text: string, literal: string, kind: string, side: Side)
    requires r.family(kind) == Time && text == StringOf(raw)
    ensures TextStands(r, raw, text, literal, kind, side) <==> OnSide(CompareCell(r, raw, literal, kind), side)
  {
    hide InfinityCell, IsInfinity, InstantStands, StringOf, TemporalText, TemporalCell;
    InfinityExact(text);
    InfinityNotEmpty(text);
    TemporalCellExact(raw, kind);
    InstantExact(r.instant(TemporalText(raw, kind), kind), r.instant(literal, kind), side);
  }

  lemma OtherExact(r: Readers, raw: Raw, text: string, literal: string, kind: string, side: Side)
    requires r.family(kind) in {Text, Uuid, Unsupported} && text == StringOf(raw)
    ensures TextStands(r, raw, text, literal, kind, side) <==> OnSide(CompareCell(r, raw, literal, kind), side)
  {
    hide TextSide, CompareBytes, StringOf;
    TextExact(text, literal, side);
  }

  /** A comparison gives the side the cell stands on, and throws exactly if it stands on none. */
  lemma CompareExact(r: Readers, raw: Raw, literal: string, kind: string, side: Side)
    ensures Stands(r, raw, literal, kind, side) <==> OnSide(CompareCell(r, raw, literal, kind), side)
  {
    hide TextStands, CompareCell, StringOf, OnSide;
    var text := StringOf(raw);
    forall t
      ensures CellText(raw, t) <==> t == text
    {
      CellTextExact(raw, t);
    }
    match r.family(kind)
    case Number => NumericExact(r, raw, text, literal, kind, side);
    case Float => NumericExact(r, raw, text, literal, kind, side);
    case Boolean => BooleanExact(r, raw, text, literal, kind, side);
    case Time => TimeExact(r, raw, text, literal, kind, side);
    case _ => OtherExact(r, raw, text, literal, kind, side);
  }

  // ----- What a predicate means -----

  ghost predicate HoldsOn(operator: Operator, side: Side) {
    match operator
    case Eq => side.Same?
    case Ne => side.Under? || side.Over?
    case Lt => side.Under?
    case Le => side.Under? || side.Same?
    case Gt => side.Over?
    case Ge => side.Over? || side.Same?
  }

  /** The first record with the id. */
  ghost predicate FirstColumn(columns: seq<Column>, id: string, c: Column) {
    exists i :: FirstColumnAt(columns, id, c, i)
  }

  ghost predicate FirstColumnAt(columns: seq<Column>, id: string, c: Column, i: nat) {
    i < |columns| && columns[i] == c && c.id == id && forall j | 0 <= j < i :: columns[j].id != id
  }

  ghost predicate Readable(r: Readers, raw: Raw, v: Option<string>, kind: string) {
    v.Some? ==> exists side :: Stands(r, raw, v.value, kind, side)
  }

  ghost predicate Matches(r: Readers, raw: Raw, v: Option<string>, kind: string) {
    v.Some? && Stands(r, raw, v.value, kind, Same)
  }

  /** A value matches and all before it can be read; or none matches, all can be read, and NULL is among
      them or not. */
  ghost predicate ListMeans(r: Readers, raw: Raw, values: seq<Option<string>>, kind: string, t: Truth) {
    match t
    case True => exists i :: FirstMatch(r, raw, values, kind, i)
    case Unknown => NoMatch(r, raw, values, kind) && None in values
    case False => NoMatch(r, raw, values, kind) && None !in values
  }

  ghost predicate FirstMatch(r: Readers, raw: Raw, values: seq<Option<string>>, kind: string, i: nat) {
    i < |values| && Matches(r, raw, values[i], kind) && forall j | 0 <= j < i :: Readable(r, raw, values[j], kind)
  }

  ghost predicate NoMatch(r: Readers, raw: Raw, values: seq<Option<string>>, kind: string) {
    forall v | v in values :: Readable(r, raw, v, kind) && !Matches(r, raw, v, kind)
  }

  /** What a test says of the cell of its column. */
  ghost predicate TestMeans(r: Readers, p: Predicate, raw: Raw, kind: string, t: Truth) {
    match p
    case Null(_, negated) => t == if raw.RawNull? then (if negated then False else True) else (if negated then True else False)
    case In(_, values) => if raw.RawNull? then t.Unknown? else ListMeans(r, raw, values, kind, t)
    case Compare(_, operator, value) =>
      if raw.RawNull? || value.None? then t.Unknown?
      else exists side :: Stands(r, raw, value.value, kind, side) && t == if HoldsOn(operator, side) then True else False
    case _ => false
  }

  ghost predicate HasMeaning(r: Readers, p: Predicate, columns: seq<Column>, row: Row)
    decreases p, 1
  {
    exists t :: Means(r, p, columns, row, t)
  }

  ghost predicate Means(r: Readers, p: Predicate, columns: seq<Column>, row: Row, t: Truth)
    decreases p, 0
  {
    match p
    case Group(kind, terms) =>
      && (forall term | term in terms :: HasMeaning(r, term, columns, row))
      && (match (kind, t)
          case (All, True) => forall term | term in terms :: Means(r, term, columns, row, True)
          case (All, False) => exists term | term in terms :: Means(r, term, columns, row, False)
          case (All, Unknown) =>
            && (forall term | term in terms :: !Means(r, term, columns, row, False))
            && (exists term | term in terms :: Means(r, term, columns, row, Unknown))
          case (Any, True) => exists term | term in terms :: Means(r, term, columns, row, True)
          case (Any, False) => forall term | term in terms :: Means(r, term, columns, row, False)
          case (Any, Unknown) =>
            && (forall term | term in terms :: !Means(r, term, columns, row, True))
            && (exists term | term in terms :: Means(r, term, columns, row, Unknown)))
    case Not(term) =>
      (match t
       case True => Means(r, term, columns, row, False)
       case False => Means(r, term, columns, row, True)
       case Unknown => Means(r, term, columns, row, Unknown))
    case Scope(_, _) => false
    case _ => exists c :: FirstColumn(columns, p.column, c) && c.id in row && TestMeans(r, p, row[c.id], c.kind, t)
  }

  // ----- Evaluation computes it -----

  lemma {:induction false} FindColumnExact(columns: seq<Column>, id: string)
    ensures forall c :: FirstColumn(columns, id, c) <==> FindColumn(columns, id) == Some(c)
    decreases |columns|
  {
    if columns != [] {
      var rest := columns[1..];
      FindColumnExact(rest, id);
      forall c
        ensures FirstColumn(columns, id, c) <==> FindColumn(columns, id) == Some(c)
      {
        if columns[0].id == id {
          assert FirstColumnAt(columns, id, columns[0], 0);
        } else {
          FirstColumnTail(columns, id, c);
        }
      }
    }
  }

  lemma FirstColumnTail(columns: seq<Column>, id: string, c: Column)
    requires columns != [] && columns[0].id != id
    ensures FirstColumn(columns, id, c) <==> FirstColumn(columns[1..], id, c)
  {
    if i: nat :| FirstColumnAt(columns, id, c, i) {
      assert FirstColumnAt(columns[1..], id, c, i - 1);
    }
    if i: nat :| FirstColumnAt(columns[1..], id, c, i) {
      forall j | 0 <= j < i + 1
        ensures columns[j].id != id
      {
        assert j > 0 ==> columns[j] == columns[1..][j - 1];
      }
      assert FirstColumnAt(columns, id, c, i + 1);
    }
  }

  lemma ValueExact(r: Readers, raw: Raw, v: Option<string>, kind: string)
    ensures Readable(r, raw, v, kind) <==> !Throws(r, raw, v, kind)
    ensures Matches(r, raw, v, kind) <==> Equals(r, raw, v, kind)
  {
    hide Stands, CompareCell;
    if v.Some? {
      var n := CompareCell(r, raw, v.value, kind);
      forall side {
        CompareExact(r, raw, v.value, kind, side);
      }
      assert n.Some? ==> OnSide(n, SideOf(n.value));
    }
  }

  lemma {:induction false} SearchExact(r: Readers, raw: Raw, values: seq<Option<string>>, kind: string, unknown: bool)
    ensures Search(r, raw, values, kind, unknown) == Some(True) <==> ListMeans(r, raw, values, kind, True)
    ensures Search(r, raw, values, kind, unknown) == Some(Unknown)
      <==> NoMatch(r, raw, values, kind) && (unknown || None in values)
    ensures Search(r, raw, values, kind, unknown) == Some(False)
      <==> NoMatch(r, raw, values, kind) && !unknown && None !in values
    decreases |values|
  {
    hide CompareCell, Readable, Matches;
    if values != [] {
      var rest := values[1..];
      assert values == [values[0]] + rest;
      assert forall v :: v in values <==> v == values[0] || v in rest;
      ValueExact(r, raw, values[0], kind);
      SearchExact(r, raw, rest, kind, unknown || values[0].None?);
      FirstMatchTail(r, raw, values, kind);
      assert NoMatch(r, raw, values, kind) <==>
        Readable(r, raw, values[0], kind) && !Matches(r, raw, values[0], kind) && NoMatch(r, raw, rest, kind);
    }
  }

  lemma FirstMatchTail(r: Readers, raw: Raw, values: seq<Option<string>>, kind: string)
    requires values != []
    ensures ListMeans(r, raw, values, kind, True) <==>
      Matches(r, raw, values[0], kind) || (Readable(r, raw, values[0], kind) && ListMeans(r, raw, values[1..], kind, True))
  {
    hide Readable, Matches;
    var rest := values[1..];
    if Matches(r, raw, values[0], kind) {
      assert FirstMatch(r, raw, values, kind, 0);
    }
    if i: nat :| FirstMatch(r, raw, values, kind, i) {
      assert i > 0 ==> FirstMatch(r, raw, rest, kind, i - 1);
    }
    if Readable(r, raw, values[0], kind) {
      if i: nat :| FirstMatch(r, raw, rest, kind, i) {
        forall j | 0 <= j < i + 1
          ensures Readable(r, raw, values[j], kind)
        {
          assert j > 0 ==> values[j] == rest[j - 1];
        }
        assert FirstMatch(r, raw, values, kind, i + 1);
      }
    }
  }

  lemma ComparisonExact(r: Readers, operator: Operator, literal: string, raw: Raw, kind: string, t: Truth)
    ensures (exists side :: Stands(r, raw, literal, kind, side) && t == if HoldsOn(operator, side) then True else False)
      <==> CompareCell(r, raw, literal, kind).Some? && t == Truthful(Holds(operator, CompareCell(r, raw, literal, kind).value))
  {
    hide Stands, CompareCell;
    var n := CompareCell(r, raw, literal, kind);
    forall side {
      CompareExact(r, raw, literal, kind, side);
    }
    if n.Some? {
      assert OnSide(n, SideOf(n.value));
      assert HoldsOn(operator, SideOf(n.value)) <==> Holds(operator, n.value);
    }
  }

  lemma TestExact(r: Readers, p: Predicate, columns: seq<Column>, row: Row, t: Truth)
    requires !p.Group? && !p.Not?
    ensures EvaluateTest(r, p, columns, row) == Some(t) <==> Means(r, p, columns, row, t)
  {
    hide Stands, CompareCell, ListMeans, HoldsOn, Holds, FirstColumn, FindColumn, Search;
    if !p.Scope? {
      FindColumnExact(columns, p.column);
      var c := FindColumn(columns, p.column);
      if c.Some? && c.value.id in row {
        var raw, kind := row[c.value.id], c.value.kind;
        CellExact(r, p, raw, kind, t);
      }
    }
  }

  ghost predicate ArmGives(r: Readers, p: Predicate, raw: Raw, kind: string, t: Truth) {
    match p
    case Null(_, negated) => t == Truthful(raw.RawNull? != negated)
    case In(_, values) => if raw.RawNull? then t == Unknown else Search(r, raw, values, kind, false) == Some(t)
    case Compare(_, operator, value) =>
      if raw.RawNull? || value.None? then t == Unknown
      else CompareCell(r, raw, value.value, kind).Some? && t == Truthful(Holds(operator, CompareCell(r, raw, value.value, kind).value))
    case _ => false
  }

  /** The arm of the test, once its cell is found. */
  lemma CellExact(r: Readers, p: Predicate, raw: Raw, kind: string, t: Truth)
    requires p.Null? || p.In? || p.Compare?
    ensures TestMeans(r, p, raw, kind, t) <==> ArmGives(r, p, raw, kind, t)
  {
    hide Stands, CompareCell, HoldsOn, Holds, Search;
    match p
    case Null(_, _) =>
    case In(_, values) => SearchExact(r, raw, values, kind, false);
    case Compare(_, operator, value) =>
      if value.Some? {
        ComparisonExact(r, operator, value.value, raw, kind, t);
      }
  }

  lemma {:induction false} EvaluateAllExact(r: Readers, terms: seq<Predicate>, columns: seq<Column>, row: Row)
    ensures forall term, u | term in terms :: Evaluate(r, term, columns, row) == Some(u) <==> Means(r, term, columns, row, u)
    decreases terms, 0
  {
    if terms != [] {
      var first, rest := terms[0], terms[1..];
      forall u {
        EvaluateExact(r, first, columns, row, u);
      }
      EvaluateAllExact(r, rest, columns, row);
      assert terms == [first] + rest;
      assert forall term :: term in terms <==> term == first || term in rest;
    }
  }

  lemma {:induction false} EvaluateAllResults(r: Readers, terms: seq<Predicate>, columns: seq<Column>, row: Row)
    ensures EvaluateAll(r, terms, columns, row).Some? <==> forall term | term in terms :: Evaluate(r, term, columns, row).Some?
    ensures EvaluateAll(r, terms, columns, row).Some? ==>
      forall u :: u in EvaluateAll(r, terms, columns, row).value <==> exists term | term in terms :: Evaluate(r, term, columns, row) == Some(u)
    decreases |terms|
  {
    hide Evaluate;
    if terms != [] {
      var first, rest := terms[0], terms[1..];
      EvaluateAllResults(r, rest, columns, row);
      assert terms == [first] + rest;
      assert first in terms && forall term :: term in terms <==> term == first || term in rest;
      assert EvaluateAll(r, terms, columns, row).Some? <==>
        Evaluate(r, first, columns, row).Some? && EvaluateAll(r, rest, columns, row).Some?;
    }
  }

  /** Evaluation gives a truth value exactly if the predicate has this meaning on the row; it throws exactly
      if the predicate has none. */
  lemma {:induction false} EvaluateExact(r: Readers, p: Predicate, columns: seq<Column>, row: Row, t: Truth)
    ensures Evaluate(r, p, columns, row) == Some(t) <==> Means(r, p, columns, row, t)
    decreases p, 1
  {
    match p
    case Group(kind, terms) =>
      EvaluateAllExact(r, terms, columns, row);
      EvaluateAllResults(r, terms, columns, row);
      GroupExact(r, kind, terms, columns, row, t);
    case Not(term) =>
      forall u {
        EvaluateExact(r, term, columns, row, u);
      }
    case _ => TestExact(r, p, columns, row, t);
  }

  lemma GroupExact(r: Readers, kind: GroupKind, terms: seq<Predicate>, columns: seq<Column>, row: Row, t: Truth)
    requires forall term, u | term in terms :: Evaluate(r, term, columns, row) == Some(u) <==> Means(r, term, columns, row, u)
    requires EvaluateAll(r, terms, columns, row).Some? <==> forall term | term in terms :: Evaluate(r, term, columns, row).Some?
    requires EvaluateAll(r, terms, columns, row).Some? ==>
      forall u :: u in EvaluateAll(r, terms, columns, row).value <==> exists term | term in terms :: Evaluate(r, term, columns, row) == Some(u)
    ensures Evaluate(r, Group(kind, terms), columns, row) == Some(t) <==> Means(r, Group(kind, terms), columns, row, t)
  {
    hide Means, HasMeaning, SomeMeans, EveryMeans, EvaluateAll, Combine;
    var results := EvaluateAll(r, terms, columns, row);
    TermsDefined(r, terms, columns, row);
    if results.Some? {
      ResultsExact(r, terms, columns, row, results.value);
      GroupCombines(r, kind, terms, columns, row, t, results.value);
    } else {
      if Means(r, Group(kind, terms), columns, row, t) {
        GroupDefined(r, kind, terms, columns, row, t);
      }
    }
  }

  lemma GroupDefined(r: Readers, kind: GroupKind, terms: seq<Predicate>, columns: seq<Column>, row: Row, t: Truth)
    requires Means(r, Group(kind, terms), columns, row, t)
    ensures forall term | term in terms :: HasMeaning(r, term, columns, row)
  {
  }

  lemma TermsDefined(r: Readers, terms: seq<Predicate>, columns: seq<Column>, row: Row)
    requires forall term, u | term in terms :: Evaluate(r, term, columns, row) == Some(u) <==> Means(r, term, columns, row, u)
    ensures forall term | term in terms :: Evaluate(r, term, columns, row).Some? <==> HasMeaning(r, term, columns, row)
  {
    hide Evaluate, Means;
    forall term | term in terms
      ensures Evaluate(r, term, columns, row).Some? <==> HasMeaning(r, term, columns, row)
    {
      var v := Evaluate(r, term, columns, row);
      assert v.Some? ==> Means(r, term, columns, row, v.value);
    }
  }

  ghost predicate SomeMeans(r: Readers, terms: seq<Predicate>, columns: seq<Column>, row: Row, u: Truth) {
    exists term | term in terms :: Means(r, term, columns, row, u)
  }

  ghost predicate EveryMeans(r: Readers, terms: seq<Predicate>, columns: seq<Column>, row: Row, u: Truth) {
    forall term | term in terms :: Means(r, term, columns, row, u)
  }

  /** The values that occur are the meanings of the terms. */
  lemma ResultsExact(r: Readers, terms: seq<Predicate>, columns: seq<Column>, row: Row, results: seq<Truth>)
    requires forall term, u | term in terms :: Evaluate(r, term, columns, row) == Some(u) <==> Means(r, term, columns, row, u)
    requires forall term | term in terms :: Evaluate(r, term, columns, row).Some?
    requires forall u :: u in results <==> exists term | term in terms :: Evaluate(r, term, columns, row) == Some(u)
    ensures forall u :: SomeMeans(r, terms, columns, row, u) <==> u in results
    ensures forall u :: EveryMeans(r, terms, columns, row, u) <==> forall v | v in results :: v == u
  {
    hide Evaluate, Means;
    forall u
      ensures EveryMeans(r, terms, columns, row, u) <==> forall v | v in results :: v == u
    {
      if forall v | v in results :: v == u {
        forall term | term in terms
          ensures Means(r, term, columns, row, u)
        {
          assert Evaluate(r, term, columns, row).value in results;
        }
      }
    }
  }

  lemma GroupCombines(r: Readers, kind: GroupKind, terms: seq<Predicate>, columns: seq<Column>, row: Row, t: Truth,
      results: seq<Truth>)
    requires forall u :: SomeMeans(r, terms, columns, row, u) <==> u in results
    requires forall u :: EveryMeans(r, terms, columns, row, u) <==> forall v | v in results :: v == u
    requires forall term | term in terms :: HasMeaning(r, term, columns, row)
    ensures Combine(kind, results) == t <==> Means(r, Group(kind, terms), columns, row, t)
  {
    hide Means, SomeMeans, EveryMeans, HasMeaning;
    GroupUnfold(r, kind, terms, columns, row, t);
  }

  lemma GroupUnfold(r: Readers, kind: GroupKind, terms: seq<Predicate>, columns: seq<Column>, row: Row, t: Truth)
    requires forall term | term in terms :: HasMeaning(r, term, columns, row)
    ensures Means(r, Group(kind, terms), columns, row, t) <==>
      if kind == All then
        if t == True then EveryMeans(r, terms, columns, row, True)
        else if t == False then SomeMeans(r, terms, columns, row, False)
        else !SomeMeans(r, terms, columns, row, False) && SomeMeans(r, terms, columns, row, Unknown)
      else
        if t == True then SomeMeans(r, terms, columns, row, True)
        else if t == False then EveryMeans(r, terms, columns, row, False)
        else !SomeMeans(r, terms, columns, row, True) && SomeMeans(r, terms, columns, row, Unknown)
  {
  }

  /** A predicate has at most one meaning on a row. */
  lemma MeansUnique(r: Readers, p: Predicate, columns: seq<Column>, row: Row, t: Truth, u: Truth)
    requires Means(r, p, columns, row, t) && Means(r, p, columns, row, u)
    ensures t == u
  {
    EvaluateExact(r, p, columns, row, t);
    EvaluateExact(r, p, columns, row, u);
  }
}
