/** `assign` of migration 026: a short, unique and legal name for every data source. */
module Aliases {
  import opened Wrappers
  import opened Chars
  import opened Arithmetic
  import Calendar

  const MAX_LENGTH: nat := 63
  const CUT: nat := 57

  /** Above this many reserved names `suffix` leaves the exact integers of a double. */
  const MAX_RESERVED: nat := 0x1F_FFFF_FFFF_FFF0

  /** The words DuckDB reserves, as the migration lists them. */
  const RESERVED_A: seq<string> := ["analyse", "analyze", "any", "array", "asymmetric", "both", "collate", "deferrable", "describe", "do",
    "foreign", "initially", "lambda", "lateral", "leading", "only", "pivot", "pivot_longer", "pivot_wider", "placing", "qualify"]
  const RESERVED_B: seq<string> := ["show", "some", "summarize", "symmetric", "to", "trailing", "unpivot", "variadic", "window",
    "all", "and", "as", "asc", "between", "by", "case", "cast", "check", "column", "constraint"]
  const RESERVED_C: seq<string> := ["create", "cross", "default", "delete", "desc", "distinct", "drop", "else", "end", "except",
    "exists", "false", "fetch", "for", "from", "full", "group", "having", "in", "inner", "insert"]
  const RESERVED_D: seq<string> := ["intersect", "into", "is", "join", "left", "like", "limit", "not", "null", "offset", "on", "or",
    "order", "outer", "primary", "references", "returning", "right", "select", "set", "table", "then"]
  const RESERVED_E: seq<string> := ["true", "union", "unique", "update", "using", "values", "when", "where", "with"]

  predicate IsReserved(s: string) {
    s in RESERVED_A || s in RESERVED_B || s in RESERVED_C || s in RESERVED_D || s in RESERVED_E
  }

  /** What no reserved word is: long, ending in a digit, or ending like the word with `_col`. */
  predicate NeverReserved(s: string) {
    |s| > 12 || s == "" || IsDigit(s[|s| - 1]) || (|s| >= 4 && s[|s| - 4] == '_')
  }

  lemma ReservedA(s: string)
    requires s in RESERVED_A
    ensures !NeverReserved(s)
  {
  }

  lemma ReservedB(s: string)
    requires s in RESERVED_B
    ensures !NeverReserved(s)
  {
  }

  lemma ReservedC(s: string)
    requires s in RESERVED_C
    ensures !NeverReserved(s)
  {
  }

  lemma ReservedD(s: string)
    requires s in RESERVED_D
    ensures !NeverReserved(s)
  {
  }

  lemma ReservedE(s: string)
    requires s in RESERVED_E
    ensures !NeverReserved(s)
  {
  }

  lemma NotReserved(s: string)
    requires NeverReserved(s)
    ensures !IsReserved(s)
  {
    hide NeverReserved;
    if s in RESERVED_A { ReservedA(s); }
    if s in RESERVED_B { ReservedB(s); }
    if s in RESERVED_C { ReservedC(s); }
    if s in RESERVED_D { ReservedD(s); }
    if s in RESERVED_E { ReservedE(s); }
  }

  // ----- The base of a name -----

  predicate IsNameChar(c: char) {
    IsDigit(c) || 'a' <= c <= 'z'
  }

  /** `replace(/[^a-z0-9]+/g, '_')`. */
  function Collapsed(s: string): (r: string)
    ensures forall i | 0 <= i < |r| :: IsNameChar(r[i]) || r[i] == '_'
  {
    if s == "" then "" else CollapsedMore(Collapsed(s[..|s| - 1]), s[|s| - 1])
  }

  function CollapsedMore(front: string, last: char): string {
    if IsNameChar(last) then front + [last]
    else if front != "" && front[|front| - 1] == '_' then front
    else front + ['_']
  }

  /** `replace(/^_+|_+$/g, '')`. */
  function Trimmed(s: string): (r: string)
    ensures |r| <= |s|
    ensures (forall i | 0 <= i < |s| :: IsNameChar(s[i]) || s[i] == '_') ==> forall i | 0 <= i < |r| :: IsNameChar(r[i]) || r[i] == '_'
    ensures r != "" ==> r[0] != '_' && r[|r| - 1] != '_'
    decreases |s|
  {
    if s == "" then ""
    else if s[0] == '_' then Trimmed(s[1..])
    else if s[|s| - 1] == '_' then Trimmed(s[..|s| - 1])
    else s
  }

  /** The name in lower-case ASCII, reduced to words joined by underscores. */
  function Slug(text: string): string {
    Trimmed(Collapsed(text))
  }

  /** The base and its hash: empty, or the start of a digest when the base had to be cut. */
  function Base(text: string, digest: string): (string, string)
    requires Slug(text) != "" && |digest| >= 5
  {
    var slug := Slug(text);
    var named := if IsDigit(slug[0]) then "n_" + slug else slug;
    var allowed := if IsReserved(named) then named + "_col" else named;
    if |allowed| > MAX_LENGTH then
      var hash := "_" + digest[..5];
      (allowed[..CUT] + hash, hash)
    else (allowed, "")
  }

  // ----- Candidates -----

  function Tail(suffix: nat): string {
    "_" + Calendar.Decimal(suffix)
  }

  /** The names tried in turn; the first is the base itself. */
  function Candidate(base: string, hash: string, n: nat): string
    requires n >= 1 && |Tail(n)| + |hash| <= MAX_LENGTH
  {
    if n == 1 then base
    else
      var keep := MAX_LENGTH - |Tail(n)| - |hash|;
      (if keep < |base| then base[..keep] else base) + hash + Tail(n)
  }

  /** The data base's check of an alias: `^[a-z_][a-z0-9_]{0,62}$`. */
  predicate Shaped(s: string) {
    && 1 <= |s| <= MAX_LENGTH && (s[0] == '_' || 'a' <= s[0] <= 'z')
    && forall i | 0 <= i < |s| :: IsNameChar(s[i]) || s[i] == '_'
  }

  predicate IsHexText(s: string) {
    forall i | 0 <= i < |s| :: IsDigit(s[i]) || 'a' <= s[i] <= 'f'
  }

  lemma BaseShaped(text: string, digest: string)
    requires Slug(text) != "" && |digest| >= 5 && IsHexText(digest)
    ensures var (base, hash) := Base(text, digest);
      && Shaped(base) && !IsReserved(base) && base[0] != '_'
      && (hash == "" || (|hash| == 6 && |base| == MAX_LENGTH)) && forall i | 0 <= i < |hash| :: IsNameChar(hash[i]) || hash[i] == '_'
  {
    hide IsReserved;
    var slug := Slug(text);
    var named := if IsDigit(slug[0]) then "n_" + slug else slug;
    var allowed := if IsReserved(named) then named + "_col" else named;
    var (base, hash) := Base(text, digest);
    assert forall i | 0 <= i < |named| :: IsNameChar(named[i]) || named[i] == '_';
    assert forall i | 0 <= i < |allowed| :: IsNameChar(allowed[i]) || allowed[i] == '_';
    if |allowed| > MAX_LENGTH {
      assert forall i | 0 <= i < |hash| :: IsNameChar(hash[i]) || hash[i] == '_';
      assert base == allowed[..CUT] + hash;
      NotReserved(base);
    } else if IsReserved(named) {
      assert base[|base| - 4] == '_';
      NotReserved(base);
    }
  }

  lemma DecimalEnds(n: nat)
    ensures var d := Calendar.Decimal(n); d != "" && IsDigit(d[|d| - 1])
  {
  }

  lemma CandidateShaped(base: string, hash: string, n: nat)
    requires n >= 1 && |Tail(n)| + |hash| < MAX_LENGTH && Shaped(base) && !IsReserved(base)
    requires forall i | 0 <= i < |hash| :: IsNameChar(hash[i]) || hash[i] == '_'
    ensures Shaped(Candidate(base, hash, n)) && !IsReserved(Candidate(base, hash, n))
  {
    hide IsReserved;
    if n > 1 {
      var c := Candidate(base, hash, n);
      DecimalEnds(n);
      assert c[|c| - 1] == Calendar.Decimal(n)[|Calendar.Decimal(n)| - 1];
      NotReserved(c);
    }
  }

  /** Candidates with different suffixes differ: the suffix is what stands after the last underscore. */
  lemma CandidatesDiffer(base: string, hash: string, m: nat, n: nat)
    requires 2 <= m && 2 <= n && |Tail(m)| + |hash| <= MAX_LENGTH && |Tail(n)| + |hash| <= MAX_LENGTH
    requires Candidate(base, hash, m) == Candidate(base, hash, n)
    ensures m == n
  {
    hide Calendar.Decimal;
    var s := Candidate(base, hash, m);
    var d, e := Calendar.Decimal(m), Calendar.Decimal(n);
    assert s[|s| - |d|..] == d && s[|s| - |d| - 1] == '_';
    assert s[|s| - |e|..] == e && s[|s| - |e| - 1] == '_';
    Calendar.DecimalValue(m);
    Calendar.DecimalValue(n);
  }

  // ----- Enough candidates -----

  lemma {:induction false} SuffixShort(n: nat, width: nat)
    requires width >= 1 && n < Pow(10, width)
    ensures |Tail(n)| <= width + 1
  {
    Calendar.DecimalLength(n, width);
  }

  /** Every suffix up to the bound leaves room in the name. */
  lemma TailFits(n: nat)
    requires n <= MAX_RESERVED + 2
    ensures |Tail(n)| <= 17
  {
    LargePower();
    SuffixShort(n, 16);
  }

  lemma LargePower()
    ensures MAX_RESERVED + 2 < Pow(10, 16)
  {
    Calendar.PowersOfTen();
    assert Pow(10, 8) == 100000000 by {
      assert Pow(10, 6) == 10 * Pow(10, 5) && Pow(10, 5) == 10 * Pow(10, 4);
      assert Pow(10, 8) == 10 * Pow(10, 7) && Pow(10, 7) == 10 * Pow(10, 6);
    }
    assert Pow(10, 10) == 10 * Pow(10, 9) && Pow(10, 9) == 10 * Pow(10, 8);
    assert Pow(10, 12) == 10 * Pow(10, 11) && Pow(10, 11) == 10 * Pow(10, 10);
    assert Pow(10, 14) == 10 * Pow(10, 13) && Pow(10, 13) == 10 * Pow(10, 12);
    assert Pow(10, 16) == 10 * Pow(10, 15) && Pow(10, 15) == 10 * Pow(10, 14);
  }

  ghost predicate Roomy(hash: string, n: nat) {
    |hash| <= 6 && n <= MAX_RESERVED + 2
  }

  /** The names tried with the suffixes 2 to `n`. */
  ghost function Suffixed(base: string, hash: string, n: nat): set<string>
    requires Roomy(hash, n)
  {
    if n < 2 then {} else TailFits(n); Suffixed(base, hash, n - 1) + {Candidate(base, hash, n)}
  }

  lemma {:induction false} SuffixedCount(base: string, hash: string, n: nat)
    requires Roomy(hash, n)
    ensures |Suffixed(base, hash, n)| == if n < 2 then 0 else n - 1
    ensures forall c | c in Suffixed(base, hash, n) :: exists m | 2 <= m <= n :: |Tail(m)| + |hash| <= MAX_LENGTH && c == Candidate(base, hash, m)
  {
    if n >= 2 {
      TailFits(n);
      SuffixedCount(base, hash, n - 1);
      var c := Candidate(base, hash, n);
      if c in Suffixed(base, hash, n - 1) {
        var m :| 2 <= m <= n - 1 && |Tail(m)| + |hash| <= MAX_LENGTH && c == Candidate(base, hash, m);
        CandidatesDiffer(base, hash, m, n);
        assert false;
      }
      forall d | d in Suffixed(base, hash, n)
        ensures exists m | 2 <= m <= n :: |Tail(m)| + |hash| <= MAX_LENGTH && d == Candidate(base, hash, m)
      {
        if d == c {
          assert 2 <= n <= n && d == Candidate(base, hash, n);
        } else {
          var m :| 2 <= m <= n - 1 && |Tail(m)| + |hash| <= MAX_LENGTH && d == Candidate(base, hash, m);
        }
      }
    }
  }

  ghost function Elements(s: seq<string>): set<string> {
    if s == [] then {} else Elements(s[..|s| - 1]) + {s[|s| - 1]}
  }

  lemma {:induction false} ElementsCount(s: seq<string>)
    ensures |Elements(s)| <= |s| && forall x :: x in Elements(s) <==> x in s
  {
    if s != [] {
      ElementsCount(s[..|s| - 1]);
      assert s == s[..|s| - 1] + [s[|s| - 1]];
    }
  }

  /** The first `n` candidates are taken. */
  ghost predicate AllTaken(base: string, hash: string, reserved: seq<string>, n: nat)
    requires Roomy(hash, n)
  {
    (n >= 1 ==> base in reserved) && forall c | c in Suffixed(base, hash, n) :: c in reserved
  }

  /** No more than the reserved names and the base twice can be taken. */
  lemma TakenBound(base: string, hash: string, reserved: seq<string>, n: nat)
    requires Roomy(hash, n) && AllTaken(base, hash, reserved, n)
    ensures n <= |reserved| + 1
    ensures n >= 1 && base !in Suffixed(base, hash, n) ==> n <= |reserved|
  {
    SuffixedCount(base, hash, n);
    ElementsCount(reserved);
    var taken := Suffixed(base, hash, n) + if n >= 1 then {base} else {};
    assert taken <= Elements(reserved);
    Subset(taken, Elements(reserved));
    Subset(Suffixed(base, hash, n), taken);
  }

  lemma {:induction false} Subset(a: set<string>, b: set<string>)
    requires a <= b
    ensures |a| <= |b|
    decreases |a|
  {
    if a != {} {
      var x :| x in a;
      Subset(a - {x}, b - {x});
    }
  }

  lemma TakenNext(base: string, hash: string, reserved: seq<string>, n: nat)
    requires n >= 1 && Roomy(hash, n) && AllTaken(base, hash, reserved, n - 1)
    requires |Tail(n)| + |hash| <= MAX_LENGTH && Candidate(base, hash, n) in reserved
    ensures AllTaken(base, hash, reserved, n)
  {
  }

  // ----- The allocator -----

  /** What the allocator promises: the first candidate that is not reserved, and its number. */
  ghost predicate IsFirstFree(base: string, hash: string, reserved: seq<string>, alias: string, tried: nat) {
    && 1 <= tried <= |reserved| + 2 && Roomy(hash, tried - 1) && AllTaken(base, hash, reserved, tried - 1)
    && |Tail(tried)| + |hash| <= MAX_LENGTH && alias == Candidate(base, hash, tried) && alias !in reserved
    && (tried == |reserved| + 2 ==> base in Suffixed(base, hash, tried - 1))
  }

  lemma FirstFree(base: string, hash: string, reserved: seq<string>, tried: nat)
    requires 1 <= tried <= |reserved| + 2 && |reserved| <= MAX_RESERVED && |hash| <= 6
    requires AllTaken(base, hash, reserved, tried - 1)
    requires |Tail(tried)| <= 17 && Candidate(base, hash, tried) !in reserved
    ensures IsFirstFree(base, hash, reserved, Candidate(base, hash, tried), tried)
  {
    hide Suffixed, Candidate, Tail, AllTaken;
    TakenBound(base, hash, reserved, tried - 1);
  }

  lemma NothingTaken(base: string, hash: string, reserved: seq<string>)
    requires |hash| <= 6
    ensures AllTaken(base, hash, reserved, 0) && |Tail(1)| <= 17 && Candidate(base, hash, 1) == base
  {
    TailFits(1);
  }

  method Assign(text: string, digest: string, reserved: seq<string>) returns (alias: Option<string>, ghost tried: nat)
    requires |digest| >= 5 && IsHexText(digest) && |reserved| <= MAX_RESERVED
    ensures alias.None? <==> Slug(text) == ""
    ensures alias.Some? ==> IsFirstFree(Base(text, digest).0, Base(text, digest).1, reserved, alias.value, tried)
    ensures alias.Some? ==> Shaped(alias.value) && !IsReserved(alias.value)
  {
    hide IsReserved, Base, Shaped, Candidate, Tail, Suffixed, AllTaken, IsFirstFree;
    if Slug(text) == "" {
      return None, 0;
    }
    var (base, hash) := Base(text, digest);
    BaseShaped(text, digest);
    var candidate := base;
    var suffix := 2;
    NothingTaken(base, hash, reserved);
    while candidate in reserved
      invariant 2 <= suffix <= |reserved| + 3 && |Tail(suffix - 1)| <= 17 && candidate == Candidate(base, hash, suffix - 1)
      invariant AllTaken(base, hash, reserved, suffix - 2)
      decreases |reserved| + 3 - suffix
    {
      TakenNext(base, hash, reserved, suffix - 1);
      TakenBound(base, hash, reserved, suffix - 1);
      TailFits(suffix);
      candidate := Candidate(base, hash, suffix);
      suffix := suffix + 1;
    }
    FirstFree(base, hash, reserved, suffix - 1);
    CandidateShaped(base, hash, suffix - 1);
    return Some(candidate), suffix - 1;
  }

  // ----- When one candidate more than the reserved names is not enough -----

  /** A base is its own suffixed form exactly if it is full and ends in its hash and the suffix. */
  lemma OwnSuffix(base: string, hash: string, n: nat)
    requires n >= 2 && |Tail(n)| + |hash| <= MAX_LENGTH && |base| <= MAX_LENGTH
    ensures Candidate(base, hash, n) == base
      <==> |base| == MAX_LENGTH && base[MAX_LENGTH - |hash| - |Tail(n)|..] == hash + Tail(n)
  {
    var keep := MAX_LENGTH - |Tail(n)| - |hash|;
    var c := Candidate(base, hash, n);
    if keep < |base| {
      assert c == base[..keep] + (hash + Tail(n));
      if |base| == MAX_LENGTH {
        assert base == base[..keep] + base[keep..];
      }
    } else {
      assert |c| > |base|;
    }
  }

  /** Then there are names to reserve, one fewer than the candidates they take. */
  lemma {:induction false} OwnSuffixTakesTwo(base: string, hash: string, n: nat) returns (reserved: seq<string>)
    requires n >= 2 && Roomy(hash, n) && |Tail(n)| + |hash| <= MAX_LENGTH && Candidate(base, hash, n) == base
    ensures |reserved| == n - 1 && AllTaken(base, hash, reserved, n)
  {
    var m: nat := 1;
    reserved := [];
    while m < n
      invariant 1 <= m <= n && |reserved| == m - 1 && forall c | c in Suffixed(base, hash, m) :: c in reserved
      invariant m == n ==> base in reserved
    {
      m := m + 1;
      TailFits(m);
      reserved := reserved + [Candidate(base, hash, m)];
    }
  }

  ghost predicate OwnForm(base: string, hash: string, n: nat) {
    n >= 2 && Roomy(hash, n + 1) && |Tail(n)| + |hash| <= MAX_LENGTH && Candidate(base, hash, n) == base
  }

  /** The allocator tries two candidates more than there are reserved names. */
  ghost predicate NeedsTwoMore(base: string, hash: string, reserved: seq<string>) {
    |reserved| <= MAX_RESERVED && exists alias, tried :: tried == |reserved| + 2 && IsFirstFree(base, hash, reserved, alias, tried)
  }

  /** One candidate more than the reserved names is always enough exactly for a base that is not one of
      its own suffixed forms. */
  lemma CandidateBoundExact(base: string, hash: string)
    requires |hash| <= 6
    ensures (exists n :: OwnForm(base, hash, n)) <==> exists reserved :: NeedsTwoMore(base, hash, reserved)
  {
    hide Candidate, Tail, Suffixed;
    if reserved :| NeedsTwoMore(base, hash, reserved) {
      SuffixedCount(base, hash, |reserved| + 1);
      var n :| 2 <= n <= |reserved| + 1 && |Tail(n)| + |hash| <= MAX_LENGTH && base == Candidate(base, hash, n);
      assert OwnForm(base, hash, n);
    }
    if n: nat :| OwnForm(base, hash, n) {
      var reserved := OwnSuffixTakesTwo(base, hash, n);
      TailFits(n + 1);
      var alias := Candidate(base, hash, n + 1);
      if alias in reserved {
        TakenNext(base, hash, reserved, n + 1);
        TakenBound(base, hash, reserved, n + 1);
        assert false;
      }
      FirstFree(base, hash, reserved, n + 1);
      assert IsFirstFree(base, hash, reserved, alias, |reserved| + 2);
      assert NeedsTwoMore(base, hash, reserved);
    }
  }

  /** Words joined by single underscores. */
  predicate Joined(s: string) {
    && (s != "" ==> s[0] != '_')
    && (forall i | 0 <= i < |s| :: IsNameChar(s[i]) || s[i] == '_')
    && forall i | 0 < i < |s| && s[i] == '_' :: IsNameChar(s[i - 1])
  }

  /** A name that is a slug already is its own base, so such bases do occur. */
  ghost predicate IsSlug(s: string) {
    s != "" && 'a' <= s[0] <= 'z' && s[|s| - 1] != '_' && |s| <= MAX_LENGTH && !IsReserved(s) && Joined(s)
  }

  lemma JoinedFront(s: string)
    requires Joined(s) && s != ""
    ensures Joined(s[..|s| - 1])
    ensures s[|s| - 1] == '_' ==> |s| > 1 && IsNameChar(s[|s| - 2])
    ensures IsNameChar(s[|s| - 1]) || s[|s| - 1] == '_'
  {
  }

  lemma CollapsedEnd(s: string)
    requires s != "" && Collapsed(s[..|s| - 1]) == s[..|s| - 1]
    requires IsNameChar(s[|s| - 1]) || (s[|s| - 1] == '_' && |s| > 1 && s[|s| - 2] != '_')
    ensures Collapsed(s) == s
  {
    hide Collapsed, CollapsedMore, IsNameChar;
    var front, last := s[..|s| - 1], s[|s| - 1];
    CollapsedStep(s);
    MoreEnd(front, last);
    FrontAndLast(s);
  }

  lemma CollapsedStep(s: string)
    requires s != ""
    ensures Collapsed(s) == CollapsedMore(Collapsed(s[..|s| - 1]), s[|s| - 1])
  {
  }

  lemma FrontAndLast(s: string)
    requires s != ""
    ensures s == s[..|s| - 1] + [s[|s| - 1]]
  {
  }

  lemma MoreEnd(front: string, last: char)
    requires IsNameChar(last) || (last == '_' && front != "" && front[|front| - 1] != '_')
    ensures CollapsedMore(front, last) == front + [last]
  {
  }

  lemma {:induction false} CollapsedSlug(s: string)
    requires Joined(s)
    ensures Collapsed(s) == s
  {
    hide Collapsed, Joined;
    if s == "" {
      CollapsedNothing();
    } else {
      JoinedFront(s);
      CollapsedSlug(s[..|s| - 1]);
      CollapsedEnd(s);
    }
  }

  lemma CollapsedNothing()
    ensures Collapsed("") == ""
  {
  }

  lemma SlugIsBase(s: string, digest: string)
    requires IsSlug(s) && |digest| >= 5
    ensures Slug(s) == s && Base(s, digest) == (s, "")
  {
    hide IsReserved, Collapsed, Joined;
    CollapsedSlug(s);
  }

  /** A name of 63 characters that ends in `_2`: its slug and its base. */
  function FullName(): (s: string)
    ensures |s| == MAX_LENGTH && s[61] == '_' && s[62] == '2' && forall i | 0 <= i < 61 :: s[i] == 'a'
  {
    seq(61, _ => 'a') + "_2"
  }

  lemma FullNameIsSlug(s: string)
    requires s == FullName()
    ensures IsSlug(s)
  {
    hide IsReserved;
    NotReserved(s);
  }

  lemma SuffixTexts(n: nat)
    requires n == 2 || n == 3
    ensures Tail(n) == if n == 2 then "_2" else "_3"
  {
  }

  /** If it is given twice, the second project row needs the third candidate: the second one is the name
      again. */
  lemma FullNameNeedsTwoMore(s: string, digest: string)
    requires s == FullName() && |digest| >= 5
    ensures Slug(s) == s && Base(s, digest) == (s, "")
    ensures IsFirstFree(s, "", [s], s[..61] + "_3", 3)
  {
    hide IsReserved, Base, FullName, Tail;
    FullNameIsSlug(s);
    SlugIsBase(s, digest);
    SuffixTexts(2);
    SuffixTexts(3);
    assert s == s[..61] + "_2";
    var third := s[..61] + "_3";
    assert Candidate(s, "", 2) == s && Candidate(s, "", 3) == third;
    assert third[62] == '3';
    OnlySuffix(s);
    TailFits(3);
    FirstFree(s, "", [s], 3);
  }

  lemma OnlySuffix(s: string)
    requires |Tail(2)| <= MAX_LENGTH && Candidate(s, "", 2) == s
    ensures AllTaken(s, "", [s], 2)
  {
    assert Suffixed(s, "", 1) == {};
    assert Suffixed(s, "", 2) == Suffixed(s, "", 1) + {Candidate(s, "", 2)};
  }

  // ----- The migration -----

  datatype Source = Source(project: string, text: string, digest: string)

  ghost predicate SourcesOk(rows: seq<Source>) {
    |rows| <= MAX_RESERVED && forall r | r in rows :: |r.digest| >= 5 && IsHexText(r.digest)
  }

  function NamesOf(names: map<string, seq<string>>, project: string): seq<string> {
    if project in names then names[project] else []
  }

  /** Aliases of the rows up to `n`: legal, and different within a project. */
  ghost predicate Aliased(rows: seq<Source>, aliases: seq<string>) {
    && |aliases| <= |rows|
    && (forall i | 0 <= i < |aliases| :: Shaped(aliases[i]) && !IsReserved(aliases[i]))
    && forall i, j | 0 <= i < j < |aliases| && rows[i].project == rows[j].project :: aliases[i] != aliases[j]
  }

  /** The aliases handed out in a project so far. */
  ghost predicate Tracked(rows: seq<Source>, aliases: seq<string>, names: map<string, seq<string>>) {
    && |aliases| <= |rows|
    && (forall i | 0 <= i < |aliases| :: aliases[i] in NamesOf(names, rows[i].project))
    && forall project :: |NamesOf(names, project)| <= |aliases|
  }

  lemma TrackedMore(rows: seq<Source>, aliases: seq<string>, names: map<string, seq<string>>, alias: string)
    requires |aliases| < |rows| && Tracked(rows, aliases, names)
    ensures var project := rows[|aliases|].project;
      Tracked(rows, aliases + [alias], names[project := NamesOf(names, project) + [alias]])
  {
    var project := rows[|aliases|].project;
    var more := names[project := NamesOf(names, project) + [alias]];
    forall i | 0 <= i < |aliases| + 1
      ensures (aliases + [alias])[i] in NamesOf(more, rows[i].project)
    {
      if i < |aliases| {
        assert aliases[i] in NamesOf(names, rows[i].project);
      }
    }
    forall p
      ensures |NamesOf(more, p)| <= |aliases| + 1
    {
      assert |NamesOf(names, p)| <= |aliases|;
    }
  }

  /** The backfill: refused if some name normalises to nothing, and otherwise an alias for every row. */
  method Up(rows: seq<Source>) returns (aliases: Option<seq<string>>)
    requires SourcesOk(rows)
    ensures aliases.None? <==> exists r | r in rows :: Slug(r.text) == ""
    ensures aliases.Some? ==> |aliases.value| == |rows| && Aliased(rows, aliases.value)
  {
    hide Slug, IsReserved, Shaped, IsFirstFree;
    if exists r | r in rows :: Slug(r.text) == "" {
      return None;
    }
    var given: seq<string> := [];
    var reserved: map<string, seq<string>> := map[];
    for k := 0 to |rows|
      invariant |given| == k && Aliased(rows, given) && Tracked(rows, given, reserved)
    {
      var row := rows[k];
      assert row in rows;
      var names := NamesOf(reserved, row.project);
      var alias, tried := Assign(row.text, row.digest, names);
      Fresh(alias.value, Base(row.text, row.digest).0, Base(row.text, row.digest).1, names, tried);
      TrackedMore(rows, given, reserved, alias.value);
      reserved := reserved[row.project := names + [alias.value]];
      given := given + [alias.value];
    }
    return Some(given);
  }

  lemma Fresh(alias: string, base: string, hash: string, reserved: seq<string>, tried: nat)
    requires IsFirstFree(base, hash, reserved, alias, tried)
    ensures alias !in reserved
  {
  }

  // ----- Slugs and candidates in other words -----

  ghost predicate WordChar(c: char) {
    ('0' <= c && c <= '9') || ('a' <= c && c <= 'z')
  }

  /** The runs of lower-case letters and digits. */
  ghost function Words(text: string): seq<string> {
    if text == "" then []
    else
      var words, n := Words(text[..|text| - 1]), |text| - 1;
      if !WordChar(text[n]) then words
      else if n > 0 && WordChar(text[n - 1]) && words != [] then words[..|words| - 1] + [words[|words| - 1] + [text[n]]]
      else words + [[text[n]]]
  }

  ghost function Joins(words: seq<string>): string {
    if words == [] then ""
    else if |words| == 1 then words[0]
    else Joins(words[..|words| - 1]) + "_" + words[|words| - 1]
  }

  /** What the text is collapsed to: an underscore for what stands around the words. */
  ghost function Around(text: string): string {
    (if text != "" && !WordChar(text[0]) then "_" else "")
    + Joins(Words(text))
    + if Words(text) != [] && !WordChar(text[|text| - 1]) then "_" else ""
  }

  lemma WordCharExact(c: char)
    ensures WordChar(c) <==> IsNameChar(c)
    ensures WordChar(c) ==> c != '_'
  {
  }

  lemma JoinsLonger(words: seq<string>, c: char)
    requires words != []
    ensures Joins(words[..|words| - 1] + [words[|words| - 1] + [c]]) == Joins(words) + [c]
  {
    hide Joins;
    var front, last := words[..|words| - 1], words[|words| - 1];
    assert words == front + [last];
    JoinsLast(front, last + [c]);
    JoinsLast(front, last);
    OneMore(Joins(front) + "_", last, c);
  }

  lemma OneMore(head: string, last: string, c: char)
    ensures head + (last + [c]) == (head + last) + [c]
  {
  }

  lemma JoinsLast(front: seq<string>, last: string)
    ensures Joins(front + [last]) == if front == [] then last else (Joins(front) + "_") + last
  {
    var more := front + [last];
    assert more[..|more| - 1] == front;
  }

  lemma JoinsMore(words: seq<string>, c: char)
    ensures Joins(words + [[c]]) == if words == [] then [c] else Joins(words) + "_" + [c]
  {
    var more := words + [[c]];
    assert more[..|more| - 1] == words;
  }

  ghost predicate GoodWord(w: string) {
    w != "" && forall i | 0 <= i < |w| :: w[i] != '_'
  }

  /** No word is empty or holds an underscore; there is one as soon as a character belongs to one. */
  lemma {:induction false} WordsOk(text: string)
    ensures forall w | w in Words(text) :: GoodWord(w)
    ensures Words(text) == [] <==> forall i | 0 <= i < |text| :: !WordChar(text[i])
  {
    if text != "" {
      var front, n := text[..|text| - 1], |text| - 1;
      WordsOk(front);
      WordCharExact(text[n]);
      assert text == front + [text[n]];
      WordsLonger(Words(front), text[n]);
    }
  }

  lemma WordsLonger(words: seq<string>, c: char)
    requires (forall w | w in words :: GoodWord(w)) && (WordChar(c) ==> c != '_')
    ensures WordChar(c) ==> forall w | w in words + [[c]] :: GoodWord(w)
    ensures WordChar(c) && words != [] ==>
      forall w | w in words[..|words| - 1] + [words[|words| - 1] + [c]] :: GoodWord(w)
  {
    if words != [] {
      assert words[|words| - 1] in words;
    }
  }

  lemma {:induction false} CollapsedAround(text: string)
    ensures Collapsed(text) == Around(text)
  {
    hide Collapsed, CollapsedMore, IsNameChar, Joins;
    if text == "" {
      CollapsedNothing();
      NothingAround();
    } else {
      var front, c := text[..|text| - 1], text[|text| - 1];
      CollapsedAround(front);
      CollapsedStep(text);
      AroundMore(front, c);
      FrontAndLast(text);
    }
  }

  lemma NothingAround()
    ensures Around("") == ""
  {
  }

  lemma AroundMore(front: string, c: char)
    ensures Around(front + [c]) == CollapsedMore(Around(front), c)
  {
    hide Around, CollapsedMore;
    if front == "" {
      AroundFirst(c);
      assert front + [c] == [c];
    } else if !WordChar(c) {
      AroundOther(front, c);
    } else {
      AroundWord(front, c);
    }
  }

  lemma AroundFirst(c: char)
    ensures Around([c]) == CollapsedMore(Around(""), c)
  {
    WordCharExact(c);
    var none: seq<string> := [];
    assert Words("") == none && [c][..0] == "";
    assert Words([c]) == if WordChar(c) then none + [[c]] else none;
    assert none + [[c]] == [[c]];
  }

  lemma AroundOther(front: string, c: char)
    requires front != "" && !WordChar(c)
    ensures Around(front + [c]) == CollapsedMore(Around(front), c)
  {
    hide Joins, Words;
    WordCharExact(c);
    WordsOk(front);
    WordsStep(front, c);
    JoinsEnds(Words(front));
    var more := front + [c];
    assert more[0] == front[0] && more[|more| - 1] == c;
  }

  lemma AroundWord(front: string, c: char)
    requires front != "" && WordChar(c)
    ensures Around(front + [c]) == CollapsedMore(Around(front), c)
  {
    hide Joins, Words;
    WordCharExact(c);
    WordsOk(front);
    WordsStep(front, c);
    var words, more := Words(front), front + [c];
    assert more[0] == front[0] && more[|more| - 1] == c;
    assert WordChar(front[|front| - 1]) ==> words != [];
    var lead := if WordChar(front[0]) then "" else "_";
    if WordChar(front[|front| - 1]) {
      JoinsLonger(words, c);
      assert lead + (Joins(words) + [c]) + "" == (lead + Joins(words) + "") + [c];
    } else {
      JoinsMore(words, c);
      JoinsNothing();
      if words == [] {
        assert !WordChar(front[0]);
        assert lead + [c] + "" == (lead + Joins(words) + "") + [c];
      } else {
        assert lead + (Joins(words) + "_" + [c]) + "" == (lead + Joins(words) + "_") + [c];
      }
    }
  }

  lemma JoinsNothing()
    ensures Joins([]) == ""
  {
  }

  /** Joined words end in a character of a word. */
  lemma JoinsEnds(words: seq<string>)
    requires forall w | w in words :: w != "" && forall i | 0 <= i < |w| :: w[i] != '_'
    ensures words == [] <==> Joins(words) == ""
    ensures words != [] ==> Joins(words)[|Joins(words)| - 1] != '_' && Joins(words)[0] != '_'
  {
    if words != [] {
      var front, last := words[..|words| - 1], words[|words| - 1];
      assert words == front + [last] && last in words;
      JoinsEnds(front);
    }
  }

  lemma WordsStep(front: string, c: char)
    ensures var words := Words(front);
      Words(front + [c]) ==
        if !WordChar(c) then words
        else if front != "" && WordChar(front[|front| - 1]) && words != [] then words[..|words| - 1] + [words[|words| - 1] + [c]]
        else words + [[c]]
  {
    assert (front + [c])[..|front + [c]| - 1] == front;
  }

  /** Underscores around a text that neither starts nor ends in one are trimmed. */
  lemma TrimmedAround(lead: string, s: string, trail: string)
    requires (lead == "" || lead == "_") && (trail == "" || trail == "_")
    requires s != "" ==> s[0] != '_' && s[|s| - 1] != '_'
    ensures Trimmed(lead + s + trail) == s
  {
    var t := lead + s + trail;
    if s == "" {
      OnlyUnderscores(t);
    } else {
      assert Trimmed(s) == s;
      if lead == "_" {
        assert t[1..] == s + trail;
        assert Trimmed(t) == Trimmed(s + trail);
      } else {
        assert t == s + trail;
      }
      if trail == "_" {
        assert (s + trail)[0] == s[0] && (s + trail)[..|s + trail| - 1] == s;
      } else {
        assert s + trail == s;
      }
    }
  }

  lemma {:induction false} OnlyUnderscores(t: string)
    requires forall i | 0 <= i < |t| :: t[i] == '_'
    ensures Trimmed(t) == ""
  {
    if t != "" {
      OnlyUnderscores(t[1..]);
    }
  }

  /** The slug of a text is its words, joined by underscores. */
  lemma SlugExact(text: string)
    ensures Slug(text) == Joins(Words(text))
  {
    hide Collapsed, Trimmed, Joins, Words;
    CollapsedAround(text);
    WordsOk(text);
    JoinsEnds(Words(text));
    TrimmedAround(if text != "" && !WordChar(text[0]) then "_" else "", Joins(Words(text)),
      if Words(text) != [] && !WordChar(text[|text| - 1]) then "_" else "");
  }

  /** What a slug is made into: no digit in front, no reserved word, at most 63 characters. */
  ghost predicate BaseIs(slug: string, digest: string, base: string, hash: string)
    requires |digest| >= 5
  {
    exists named, allowed ::
      && (if slug != "" && '0' <= slug[0] && slug[0] <= '9' then named == "n_" + slug else named == slug)
      && (if IsReserved(named) then allowed == named + "_col" else allowed == named)
      && (|allowed| <= 63 ==> base == allowed && hash == "")
      && (|allowed| > 63 ==> hash == "_" + digest[..5] && base == allowed[..57] + hash)
  }

  lemma BaseExact(text: string, digest: string)
    requires Slug(text) != "" && |digest| >= 5
    ensures BaseIs(Joins(Words(text)), digest, Base(text, digest).0, Base(text, digest).1)
  {
    hide IsReserved, Slug, Joins, Words;
    SlugExact(text);
    var slug := Slug(text);
    var named := if IsDigit(slug[0]) then "n_" + slug else slug;
    var allowed := if IsReserved(named) then named + "_col" else named;
    assert |allowed| <= 63 || |allowed| > 63;
  }

  /** A later candidate: as much of the base as fits, the hash, and the number. */
  lemma CandidateText(base: string, hash: string, n: nat)
    requires n >= 2 && |Tail(n)| + |hash| <= MAX_LENGTH && |base| <= MAX_LENGTH
    ensures var c := Candidate(base, hash, n);
      exists k :: 0 <= k <= |base| && c == base[..k] + hash + "_" + Calendar.Decimal(n) && (k == |base| || |c| == 63) && |c| <= 63
  {
    hide Calendar.Decimal;
    var keep := MAX_LENGTH - |Tail(n)| - |hash|;
    var k := if keep < |base| then keep else |base|;
    assert base[..|base|] == base;
    assert Candidate(base, hash, n) == base[..k] + hash + "_" + Calendar.Decimal(n);
  }
}
