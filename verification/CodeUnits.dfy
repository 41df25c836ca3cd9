/** Texts as the UTF-16 code units that ECMAScript counts and compares. */
module CodeUnits {
  import opened Chars
  import opened Ordering

  /** Section 2 of RFC 2781. */
  function Units(c: char): (r: seq<nat>)
    ensures r != []
  {
    var n := c as nat;
    if n < 0x1_0000 then [n] else [0xD800 + (n - 0x1_0000) / 0x400, 0xDC00 + (n - 0x1_0000) % 0x400]
  }

  function Encoded(s: string): seq<nat> {
    if s == "" then [] else Units(s[0]) + Encoded(s[1..])
  }

  /** The length is the number of code units. */
  lemma {:induction false} LengthExact(s: string)
    ensures Utf16Length(s) == |Encoded(s)|
  {
    if s != "" {
      LengthExact(s[1..]);
    }
  }

  /** The first unit that differs is smaller, or the units are a proper beginning of the others. */
  ghost predicate Before(a: seq<nat>, b: seq<nat>) {
    exists k :: BeforeAt(a, b, k)
  }

  ghost predicate BeforeAt(a: seq<nat>, b: seq<nat>, k: nat) {
    k <= |a| && k < |b| && a[..k] == b[..k] && (k == |a| || a[k] < b[k])
  }

  lemma BeforeBehind(p: seq<nat>, a: seq<nat>, b: seq<nat>)
    ensures Before(p + a, p + b) <==> Before(a, b)
  {
    if k: nat :| BeforeAt(a, b, k) {
      assert (p + a)[..|p| + k] == p + a[..k] && (p + b)[..|p| + k] == p + b[..k];
      assert BeforeAt(p + a, p + b, |p| + k);
    }
    if k: nat :| BeforeAt(p + a, p + b, k) {
      assert k >= |p|;
      assert (p + a)[..k] == p + a[..k - |p|] && (p + b)[..k] == p + b[..k - |p|];
      assert a[..k - |p|] == (p + a)[..k][|p|..] && b[..k - |p|] == (p + b)[..k][|p|..];
      assert BeforeAt(a, b, k - |p|);
    }
  }

  /** Where two different characters first differ. */
  function Difference(c: char, d: char): nat {
    if c as nat >= 0x1_0000 && d as nat >= 0x1_0000 && Units(c)[0] == Units(d)[0] then 1 else 0
  }

  lemma UnitsDiffer(c: char, d: char)
    requires c != d
    ensures var k := Difference(c, d);
      && k < |Units(c)| && k < |Units(d)| && (k == 1 ==> Units(c)[0] == Units(d)[0])
      && Units(c)[k] != Units(d)[k] && (Units(c)[k] < Units(d)[k] <==> Rank(c) < Rank(d))
  {
  }

  lemma HeadDecides(c: char, a: seq<nat>, d: char, b: seq<nat>)
    requires c != d
    ensures Before(Units(c) + a, Units(d) + b) <==> Rank(c) < Rank(d)
  {
    UnitsDiffer(c, d);
    var x, y, k := Units(c) + a, Units(d) + b, Difference(c, d);
    assert x[k] == Units(c)[k] && y[k] == Units(d)[k];
    assert x[..k] == y[..k] by {
      assert k == 1 ==> x[0] == y[0];
    }
    if Rank(c) < Rank(d) {
      assert BeforeAt(x, y, k);
    }
    forall j: nat | BeforeAt(x, y, j)
      ensures j == k
    {
      OnlyDifference(x, y, k, j);
    }
  }

  lemma OnlyDifference(x: seq<nat>, y: seq<nat>, k: nat, j: nat)
    requires k < |x| && k < |y| && x[k] != y[k] && x[..k] == y[..k] && BeforeAt(x, y, j)
    ensures j == k
  {
    assert forall i | 0 <= i < j :: x[..j][i] == x[i] && y[..j][i] == y[i];
  }

  /** Comparing texts is comparing their code units. */
  lemma {:induction false} LessExact(a: string, b: string)
    ensures Less(a, b) <==> Before(Encoded(a), Encoded(b))
  {
    hide Before, Units;
    if b == "" {
      NotBeforeNothing(Encoded(a));
    } else if a == "" {
      NothingBefore(Encoded(b));
    } else if a[0] == b[0] {
      LessExact(a[1..], b[1..]);
      BeforeBehind(Units(a[0]), Encoded(a[1..]), Encoded(b[1..]));
    } else {
      HeadDecides(a[0], Encoded(a[1..]), b[0], Encoded(b[1..]));
    }
  }

  lemma NotBeforeNothing(a: seq<nat>)
    ensures !Before(a, [])
  {
  }

  lemma NothingBefore(b: seq<nat>)
    requires b != []
    ensures Before([], b)
  {
    assert BeforeAt([], b, 0);
  }
}
