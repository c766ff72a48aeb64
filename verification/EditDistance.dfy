/**
 The edit distance that ranks the admin user search (core/database.rs).

 The reference notion is the least number of single-character edits, made anywhere and in any
 order, that turn one string into the other.  `Lev` is the last-character recurrence; it is
 connected to edit scripts in both directions, and the two-row loop of the source is proved
 to compute it.
 */
module EditDistance {

  // ----- edit scripts: the independent definition

  datatype Edit = Insert(at: nat, ch: char) | Delete(at: nat) | Substitute(at: nat, ch: char)

  predicate Applicable(s: string, e: Edit)
  {
    if e.Insert? then e.at <= |s| else e.at < |s|
  }

  function Apply(s: string, e: Edit): string
    requires Applicable(s, e)
  {
    match e
    case Insert(at, ch) => s[..at] + [ch] + s[at..]
    case Delete(at) => s[..at] + s[at + 1..]
    case Substitute(at, ch) => s[..at] + [ch] + s[at + 1..]
  }

  /** The script `es`, applied edit by edit to `a`, ends in `b`. */
  ghost predicate Turns(a: string, es: seq<Edit>, b: string)
    decreases |es|
  {
    if es == [] then a == b
    else Applicable(a, es[0]) && Turns(Apply(a, es[0]), es[1..], b)
  }

  // ----- the recurrence

  function Min(x: nat, y: nat): nat { if x <= y then x else y }

  function Cost(x: char, y: char): nat { if x == y then 0 else 1 }

  function Init(s: string): string
    requires s != ""
  {
    s[..|s| - 1]
  }

  function Last(s: string): char
    requires s != ""
  {
    s[|s| - 1]
  }

  function Lev(a: string, b: string): nat
    decreases |a| + |b|
  {
    if a == "" then |b|
    else if b == "" then |a|
    else Min(Min(Lev(Init(a), b) + 1, Lev(a, Init(b)) + 1), Lev(Init(a), Init(b)) + Cost(Last(a), Last(b)))
  }

  // ----- metric laws

  lemma {:induction false} Symmetric(a: string, b: string)
    ensures Lev(a, b) == Lev(b, a)
    decreases |a| + |b|
  {
    if a != "" && b != "" {
      Symmetric(Init(a), b);
      Symmetric(a, Init(b));
      Symmetric(Init(a), Init(b));
    }
  }

  lemma {:induction false} ZeroIffEqual(a: string, b: string)
    ensures Lev(a, b) == 0 <==> a == b
    decreases |a| + |b|
  {
    if a != "" && b != "" {
      ZeroIffEqual(Init(a), Init(b));
      assert a == Init(a) + [Last(a)] && b == Init(b) + [Last(b)];
    }
  }

  /** One more character on one side costs at most one. */
  lemma {:induction false} StepBound(a: string, b: string)
    ensures a != "" ==> Lev(a, b) <= Lev(Init(a), b) + 1
    ensures b != "" ==> Lev(a, b) <= Lev(a, Init(b)) + 1
    ensures |a| - |b| <= Lev(a, b) && |b| - |a| <= Lev(a, b) <= |a| + |b|
    decreases |a| + |b|
  {
    if a != "" && b != "" {
      StepBound(Init(a), b);
      StepBound(a, Init(b));
      StepBound(Init(a), Init(b));
    }
  }

  lemma {:induction false} Triangle(a: string, b: string, c: string)
    ensures Lev(a, c) <= Lev(a, b) + Lev(b, c)
    decreases |a| + |b| + |c|
  {
    StepBound(a, b);
    StepBound(b, c);
    StepBound(a, c);
    if a != "" && b != "" && c != "" {
      Triangle(Init(a), b, c);
      Triangle(a, b, Init(c));
      Triangle(a, Init(b), c);
      Triangle(a, Init(b), Init(c));
      Triangle(Init(a), Init(b), c);
      Triangle(Init(a), Init(b), Init(c));
      assert Lev(a, c) <= Lev(Init(a), Init(c)) + Cost(Last(a), Last(c));
    }
  }

  // ----- the recurrence against scripts

  lemma {:induction false} CommonSuffix(p: string, q: string, s: string)
    ensures Lev(p + s, q + s) <= Lev(p, q)
    decreases |s|
  {
    if s == "" {
      assert p + s == p && q + s == q;
    } else {
      assert Init(p + s) == p + Init(s) && Init(q + s) == q + Init(s);
      CommonSuffix(p, q, Init(s));
    }
  }

  lemma OneEdit(s: string, e: Edit)
    requires Applicable(s, e)
    ensures Lev(s, Apply(s, e)) <= 1
  {
    var p, t := s[..e.at], Apply(s, e);
    ZeroIffEqual(p, p);
    match e
    case Insert(at, ch) =>
      assert s == p + s[at..];
      assert Init(p + [ch]) == p;
      StepBound(p, p + [ch]);
      CommonSuffix(p, p + [ch], s[at..]);
    case Delete(at) =>
      assert Init(s[..at + 1]) == p && s == s[..at + 1] + s[at + 1..];
      StepBound(s[..at + 1], p);
      CommonSuffix(s[..at + 1], p, s[at + 1..]);
    case Substitute(at, ch) =>
      assert Init(s[..at + 1]) == p && s == s[..at + 1] + s[at + 1..];
      assert Init(p + [ch]) == p;
      CommonSuffix(s[..at + 1], p + [ch], s[at + 1..]);
  }

  /** No script is shorter than `Lev`. */
  lemma {:induction false} ScriptsAreNoShorter(a: string, es: seq<Edit>, b: string)
    requires Turns(a, es, b)
    ensures Lev(a, b) <= |es|
    decreases |es|
  {
    if es == [] {
      ZeroIffEqual(a, b);
    } else {
      var m := Apply(a, es[0]);
      OneEdit(a, es[0]);
      ScriptsAreNoShorter(m, es[1..], b);
      Triangle(a, m, b);
    }
  }

  lemma {:induction false} AppendEdit(a: string, es: seq<Edit>, b: string, e: Edit)
    requires Turns(a, es, b) && Applicable(b, e)
    ensures Turns(a, es + [e], Apply(b, e))
    decreases |es|
  {
    if es == [] {
      assert es + [e] == [e];
      assert Turns(Apply(a, e), [], Apply(b, e));
    } else {
      assert (es + [e])[1..] == es[1..] + [e];
      AppendEdit(Apply(a, es[0]), es[1..], b, e);
    }
  }

  lemma {:induction false} UnderSuffix(a: string, es: seq<Edit>, b: string, x: char)
    requires Turns(a, es, b)
    ensures Turns(a + [x], es, b + [x])
    decreases |es|
  {
    if es != [] {
      assert Apply(a + [x], es[0]) == Apply(a, es[0]) + [x];
      UnderSuffix(Apply(a, es[0]), es[1..], b, x);
    }
  }

  lemma DeleteLast(a: string, es: seq<Edit>, b: string)
    requires a != "" && Turns(Init(a), es, b)
    ensures Turns(a, [Delete(|a| - 1)] + es, b)
  {
    var e := Delete(|a| - 1);
    assert Apply(a, e) == Init(a);
    assert ([e] + es)[1..] == es;
  }

  lemma InsertLast(a: string, es: seq<Edit>, b: string)
    requires b != "" && Turns(a, es, Init(b))
    ensures Turns(a, es + [Insert(|b| - 1, Last(b))], b)
  {
    var e := Insert(|b| - 1, Last(b));
    assert Apply(Init(b), e) == b;
    AppendEdit(a, es, Init(b), e);
  }

  lemma InitLast(s: string)
    requires s != ""
    ensures Init(s) + [Last(s)] == s
  {
  }

  /** A script for everything but the last character leaves that character in place. */
  lemma BeforeLast(a: string, es: seq<Edit>, p: string)
    requires a != "" && Turns(Init(a), es, p)
    ensures Turns(a, es, p + [Last(a)])
  {
    UnderSuffix(Init(a), es, p, Last(a));
    InitLast(a);
  }

  lemma KeepLast(a: string, es: seq<Edit>, b: string)
    requires a != "" && b != "" && Last(a) == Last(b) && Turns(Init(a), es, Init(b))
    ensures Turns(a, es, b)
  {
    BeforeLast(a, es, Init(b));
    InitLast(b);
  }

  lemma SubstituteEnd(a: string, es: seq<Edit>, p: string, x: char, y: char)
    requires Turns(a, es, p + [x])
    ensures Turns(a, es + [Substitute(|p|, y)], p + [y])
  {
    var e := Substitute(|p|, y);
    assert Apply(p + [x], e) == p + [y];
    AppendEdit(a, es, p + [x], e);
  }

  lemma ReplaceLast(a: string, es: seq<Edit>, b: string)
    requires a != "" && b != "" && Turns(Init(a), es, Init(b))
    ensures Turns(a, es + [Substitute(|b| - 1, Last(b))], b)
  {
    BeforeLast(a, es, Init(b));
    SubstituteEnd(a, es, Init(b), Last(a), Last(b));
    InitLast(b);
  }

  /** A script of exactly `Lev` edits exists. */
  lemma {:induction false} ScriptExists(a: string, b: string) returns (es: seq<Edit>)
    ensures Turns(a, es, b) && |es| == Lev(a, b)
    decreases |a| + |b|
  {
    if a == "" && b == "" {
      es := [];
    } else if a != "" && (b == "" || Lev(a, b) == Lev(Init(a), b) + 1) {
      es := ScriptExists(Init(a), b);
      DeleteLast(a, es, b);
      es := [Delete(|a| - 1)] + es;
    } else if a == "" || Lev(a, b) == Lev(a, Init(b)) + 1 {
      es := ScriptExists(a, Init(b));
      InsertLast(a, es, b);
      es := es + [Insert(|b| - 1, Last(b))];
    } else {
      es := ScriptExists(Init(a), Init(b));
      if Last(a) == Last(b) {
        KeepLast(a, es, b);
      } else {
        ReplaceLast(a, es, b);
        es := es + [Substitute(|b| - 1, Last(b))];
      }
    }
  }

  /** `n` is the least length of a script from `a` to `b`. */
  ghost predicate IsLeastScriptLength(a: string, b: string, n: nat)
  {
    && (exists es :: Turns(a, es, b) && |es| == n)
    && (forall es :: Turns(a, es, b) ==> n <= |es|)
  }

  lemma LevIsLeast(a: string, b: string)
    ensures IsLeastScriptLength(a, b, Lev(a, b))
  {
    var es := ScriptExists(a, b);
    forall es | Turns(a, es, b) ensures Lev(a, b) <= |es| {
      ScriptsAreNoShorter(a, es, b);
    }
  }

  // ----- the two-row loop

  /** The distance between two prefixes, the quantity the table of the algorithm holds. */
  ghost function Cell(a: string, b: string, i: nat, j: nat): nat
    requires i <= |a| && j <= |b|
  {
    Lev(a[..i], b[..j])
  }

  lemma CellRules(a: string, b: string, i: nat, j: nat)
    requires i < |a| && j < |b|
    ensures Cell(a, b, i + 1, j + 1)
         == Min(Min(Cell(a, b, i, j + 1) + 1, Cell(a, b, i + 1, j) + 1), Cell(a, b, i, j) + Cost(a[i], b[j]))
  {
    assert Init(a[..i + 1]) == a[..i] && Init(b[..j + 1]) == b[..j];
  }

  /** `row` is row `i` of the table up to column `n`. */
  ghost predicate Row(row: seq<nat>, a: string, b: string, i: nat, n: nat)
    requires i <= |a| && n <= |b| < |row|
  {
    forall j :: 0 <= j <= n ==> row[j] == Cell(a, b, i, j)
  }

  method LevenshteinDistance(a: string, b: string) returns (distance: nat)
    ensures IsLeastScriptLength(a, b, distance)
    ensures distance == Lev(a, b)
  {
    LevIsLeast(a, b);
    if a == "" {
      return |b|;
    }
    if b == "" {
      return |a|;
    }
    var prev := new nat[|b| + 1](j => j);
    var curr := new nat[|b| + 1](j => 0);
    for i := 0 to |a|
      invariant prev.Length == curr.Length == |b| + 1
      invariant prev != curr && fresh(prev) && fresh(curr)
      invariant Row(prev[..], a, b, i, |b|)
    {
      FillRow(a, b, i, prev, curr);
      prev, curr := curr, prev;
    }
    assert a[..|a|] == a && b[..|b|] == b;
    assert prev[..][|b|] == Cell(a, b, |a|, |b|);
    return prev[|b|];
  }

  /** One turn of the outer loop: row `i + 1` from row `i`. */
  method FillRow(a: string, b: string, i: nat, prev: array<nat>, curr: array<nat>)
    requires i < |a| && b != ""
    requires prev.Length == curr.Length == |b| + 1 && prev != curr
    requires Row(prev[..], a, b, i, |b|)
    modifies curr
    ensures Row(curr[..], a, b, i + 1, |b|)
  {
    ghost var above := prev[..];
    curr[0] := i + 1;
    for j := 0 to |b|
      invariant prev[..] == above
      invariant Row(curr[..], a, b, i + 1, j)
    {
      CellRules(a, b, i, j);
      assert above[j] == Cell(a, b, i, j) && above[j + 1] == Cell(a, b, i, j + 1);
      assert curr[..][j] == Cell(a, b, i + 1, j);
      var cost := if a[i] == b[j] then 0 else 1;
      curr[j + 1] := Min(Min(prev[j + 1] + 1, curr[j] + 1), prev[j] + cost);
    }
  }
}
