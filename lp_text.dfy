/**
 * The front end of lp_vc: the lines of the `lp_solve` input file for the
 * vertex-cover LP relaxation of a graph, and decoders that read a bound or
 * constraint line back.
 *
 * The file is: the objective `min: x1  + x2 + ... + xN;`, then for every
 * variable `xi >= 0;` and `xi <= 1;`, then `xu + xv >= 1;` for every edge.
 */
module LpText {
  import opened Graphs

  datatype Option<T> = None | Some(value: T)

  predicate IsDigit(c: char)
  {
    '0' <= c <= '9'
  }

  predicate AllDigits(s: string)
  {
    forall i :: 0 <= i < |s| ==> IsDigit(s[i])
  }

  function DigitChar(d: nat): (c: char)
    requires d < 10
    ensures IsDigit(c)
  {
    (48 + d) as char
  }

  /** `str(n)` for a non-negative integer: its decimal digits. */
  function NatToString(n: nat): (s: string)
    ensures |s| > 0 && AllDigits(s)
  {
    if n < 10 then [DigitChar(n)] else NatToString(n / 10) + [DigitChar(n % 10)]
  }

  /** `str(i)` for any integer: a minus sign before the digits of a negative one. */
  function IntToString(i: int): (s: string)
    ensures |s| > 0 && forall k :: 0 <= k < |s| ==> s[k] == '-' || IsDigit(s[k])
    ensures s[0] == '-' <==> i < 0
    ensures forall k :: 0 < k < |s| ==> IsDigit(s[k])
  {
    if i < 0 then "-" + NatToString(-i) else NatToString(i)
  }

  /** The number a string of decimal digits denotes. */
  function DigitsValue(s: string): nat
    requires AllDigits(s)
  {
    if s == [] then 0 else 10 * DigitsValue(s[..|s| - 1]) + (s[|s| - 1] as int - 48)
  }

  /** Reads an integer written as `str` writes it. */
  function ParseInt(s: string): Option<int>
  {
    if |s| > 1 && s[0] == '-' && AllDigits(s[1..]) then Some(-(DigitsValue(s[1..]) as int))
    else if |s| > 0 && AllDigits(s) then Some(DigitsValue(s))
    else None
  }

  lemma {:induction false} NatToStringRoundTrip(n: nat)
    ensures DigitsValue(NatToString(n)) == n
  {
    if n >= 10 {
      NatToStringRoundTrip(n / 10);
      var s := NatToString(n);
      assert s[..|s| - 1] == NatToString(n / 10);
    }
  }

  /** `str` is read back exactly. */
  lemma IntToStringRoundTrip(i: int)
    ensures ParseInt(IntToString(i)) == Some(i)
  {
    if i < 0 {
      NatToStringRoundTrip(-i);
      assert IntToString(i)[1..] == NatToString(-i);
    } else {
      NatToStringRoundTrip(i);
    }
  }

  /** The variable name of node `v`: `"x" + str(v)`. */
  function Var(v: int): string
  {
    "x" + IntToString(v)
  }

  /** `" + x2 + x3 ... + xn"`, what the loop building `minimizing_function` appends. */
  function Terms(n: nat): (s: string)
    ensures forall k :: 0 <= k < |s| ==> s[k] != '\n' && s[k] != ';'
  {
    if n < 2 then "" else Terms(n - 1) + " + " + Var(n)
  }

  /** `minimizing_function`: `x1 ` is written even when there is at most one node. */
  function ObjectiveTerms(n: nat): (s: string)
    ensures |s| >= 3 && s[..3] == "x1 "
    ensures forall k :: 0 <= k < |s| ==> s[k] != '\n' && s[k] != ';'
  {
    "x1 " + Terms(n)
  }

  /** One statement of the LP model, as the model file states it on one line. */
  datatype Statement =
    | Objective(n: nat)           // minimise x1 + ... + xn
    | LowerBound(i: int)          // xi >= 0
    | UpperBound(i: int)          // xi <= 1
    | CoverConstraint(e: Edge)    // xu + xv >= 1

  /** The LP relaxation of vertex cover for `n` nodes and the edges `edges`, in file order. */
  function Model(n: nat, edges: seq<Edge>): seq<Statement>
  {
    [Objective(n)] + Bounds(n) + Constraints(edges)
  }

  /** `x1 >= 0`, `x1 <= 1`, ..., `xn >= 0`, `xn <= 1`. */
  function Bounds(n: nat): seq<Statement>
  {
    if n == 0 then [] else Bounds(n - 1) + [LowerBound(n), UpperBound(n)]
  }

  function Constraints(edges: seq<Edge>): seq<Statement>
  {
    seq(|edges|, j requires 0 <= j < |edges| => CoverConstraint(edges[j]))
  }

  /** The text of one statement: a single line, terminated by `;` and a newline. */
  function Render(s: Statement): (line: string)
    ensures |line| >= 2 && line[|line| - 2..] == ";\n"
    ensures forall k :: 0 <= k < |line| - 1 ==> line[k] != '\n'
  {
    match s
    case Objective(n) => "min: " + ObjectiveTerms(n) + ";\n"
    case LowerBound(i) => Var(i) + " >= 0;\n"
    case UpperBound(i) => Var(i) + " <= 1;\n"
    case CoverConstraint(e) => Var(e.u) + " + " + Var(e.v) + " >= 1;\n"
  }

  function RenderAll(m: seq<Statement>): seq<string>
  {
    seq(|m|, k requires 0 <= k < |m| => Render(m[k]))
  }

  /** The position of the first space in `s`, or `|s|` when there is none. */
  function SpaceIndex(s: string): (p: nat)
    ensures p <= |s|
    ensures forall i :: 0 <= i < p ==> s[i] != ' '
    ensures p < |s| ==> s[p] == ' '
  {
    if s == [] then 0 else if s[0] == ' ' then 0 else 1 + SpaceIndex(s[1..])
  }

  /** Reads a bound line `x<i> >= 0;`, `x<i> <= 1;` or a constraint line `x<u> + x<v> >= 1;`. */
  function Decode(line: string): Option<Statement>
  {
    if |line| < 8 || line[0] != 'x' then None
    else
      var body := line[1..|line| - 7];
      var tail := line[|line| - 7..];
      if tail == " >= 0;\n" then
        var i := ParseInt(body);
        if i.Some? then Some(LowerBound(i.value)) else None
      else if tail == " <= 1;\n" then
        var i := ParseInt(body);
        if i.Some? then Some(UpperBound(i.value)) else None
      else if tail == " >= 1;\n" then
        var p := SpaceIndex(body);
        if p + 4 > |body| || body[p..p + 4] != " + x" then None
        else
          var u := ParseInt(body[..p]);
          var v := ParseInt(body[p + 4..]);
          if u.Some? && v.Some? then Some(CoverConstraint(Edge(u.value, v.value))) else None
      else None
  }

  lemma {:induction false} SpaceIndexAfter(a: string, b: string)
    requires forall i :: 0 <= i < |a| ==> a[i] != ' '
    requires |b| > 0 && b[0] == ' '
    ensures SpaceIndex(a + b) == |a|
  {
    if a != [] {
      assert (a + b)[1..] == a[1..] + b;
      SpaceIndexAfter(a[1..], b);
    }
  }

  /** A line `x<a><tail>` splits into the name `a` and the 7-character tail. */
  lemma SplitLine(a: string, tail: string)
    requires |a| > 0 && |tail| == 7
    ensures var line := "x" + a + tail;
      |line| >= 8 && line[0] == 'x' && line[1..|line| - 7] == a && line[|line| - 7..] == tail
  {
  }

  lemma DecodeBoundLine(a: string, i: int)
    requires ParseInt(a) == Some(i) && |a| > 0
    ensures Decode("x" + a + " >= 0;\n") == Some(LowerBound(i))
    ensures Decode("x" + a + " <= 1;\n") == Some(UpperBound(i))
  {
    SplitLine(a, " >= 0;\n");
    SplitLine(a, " <= 1;\n");
  }

  lemma DecodeConstraintLine(a: string, b: string, u: int, v: int)
    requires ParseInt(a) == Some(u) && ParseInt(b) == Some(v) && |a| > 0
    requires forall i :: 0 <= i < |a| ==> a[i] != ' '
    ensures Decode("x" + a + " + x" + b + " >= 1;\n") == Some(CoverConstraint(Edge(u, v)))
  {
    var body := a + " + x" + b;
    assert "x" + a + " + x" + b + " >= 1;\n" == "x" + body + " >= 1;\n";
    SplitLine(body, " >= 1;\n");
    SpaceIndexAfter(a, " + x" + b);
    assert body[..|a|] == a;
    assert body[|a|..|a| + 4] == " + x";
    assert body[|a| + 4..] == b;
  }

  /** Every bound and constraint line reads back as the statement it was written for. */
  lemma RenderRoundTrip(s: Statement)
    requires !s.Objective?
    ensures Decode(Render(s)) == Some(s)
  {
    match s
    case LowerBound(i) =>
      IntToStringRoundTrip(i);
      DecodeBoundLine(IntToString(i), i);
    case UpperBound(i) =>
      IntToStringRoundTrip(i);
      DecodeBoundLine(IntToString(i), i);
    case CoverConstraint(e) =>
      IntToStringRoundTrip(e.u);
      IntToStringRoundTrip(e.v);
      assert Render(s) == "x" + IntToString(e.u) + " + x" + IntToString(e.v) + " >= 1;\n";
      DecodeConstraintLine(IntToString(e.u), IntToString(e.v), e.u, e.v);
  }

  /** Distinct edges give distinct constraint lines. */
  lemma ConstraintLineInjective(e: Edge, f: Edge)
    requires Render(CoverConstraint(e)) == Render(CoverConstraint(f))
    ensures e == f
  {
    RenderRoundTrip(CoverConstraint(e));
    RenderRoundTrip(CoverConstraint(f));
  }

  /** The position of the last space in `s`, or -1 when there is none. */
  function LastSpace(s: string): (p: int)
    ensures -1 <= p < |s|
    ensures p >= 0 ==> s[p] == ' '
    ensures forall i :: p < i < |s| ==> s[i] != ' '
  {
    if s == [] then -1 else if s[|s| - 1] == ' ' then |s| - 1 else LastSpace(s[..|s| - 1])
  }

  /** Reads terms ` + x<i>` back to their variable numbers, in order. */
  function DecodeTerms(s: string): Option<seq<int>>
    decreases |s|
  {
    if s == [] then Some([])
    else
      var p := LastSpace(s);
      if p < 2 || p + 2 > |s| || s[p - 2..p + 2] != " + x" then None
      else
        var rest := DecodeTerms(s[..p - 2]);
        var i := ParseInt(s[p + 2..]);
        if rest.Some? && i.Some? then Some(rest.value + [i.value]) else None
  }

  /** Reads the objective line `min: x1 <terms>;` back to the variable numbers it sums. */
  function DecodeObjective(line: string): Option<seq<int>>
  {
    if |line| < 10 || line[..8] != "min: x1 " || line[|line| - 2..] != ";\n" then None
    else
      var terms := DecodeTerms(line[8..|line| - 2]);
      if terms.Some? then Some([1] + terms.value) else None
  }

  /** The variables the objective sums: `x1 .. xn`, and `x1` alone when `n` is 0. */
  function ObjectiveVars(n: nat): seq<int>
  {
    seq(if n == 0 then 1 else n, k => k + 1)
  }

  lemma {:induction false} LastSpaceAfter(a: string, b: string)
    requires forall k :: 0 <= k < |b| ==> b[k] != ' '
    ensures LastSpace(a + " " + b) == |a|
  {
    if b != [] {
      var s := a + " " + b;
      assert s[..|s| - 1] == a + " " + b[..|b| - 1];
      LastSpaceAfter(a, b[..|b| - 1]);
    } else {
      assert (a + " ")[..|a|] == a;
    }
  }

  /** The variables `Terms(n)` names: `2 .. n`. */
  function TermVars(n: nat): seq<int>
  {
    seq(if n < 2 then 0 else n - 1, k => k + 2)
  }

  /** `Terms(n)` names `x2 .. xn` in order. */
  lemma {:induction false} TermsRoundTrip(n: nat)
    ensures DecodeTerms(Terms(n)) == Some(TermVars(n))
  {
    if n >= 2 {
      TermsRoundTrip(n - 1);
      assert Terms(n) == Terms(n - 1) + " + x" + IntToString(n);
      IntToStringRoundTrip(n);
      DecodeTermsStep(Terms(n - 1), IntToString(n), TermVars(n - 1), n);
      assert TermVars(n - 1) + [n] == TermVars(n);
    } else {
      assert TermVars(n) == [];
    }
  }

  /** One more term ` + x<d>` after terms that read back reads back as one more variable. */
  lemma DecodeTermsStep(t: string, d: string, vars: seq<int>, i: int)
    requires DecodeTerms(t) == Some(vars) && ParseInt(d) == Some(i)
    requires forall k :: 0 <= k < |d| ==> d[k] != ' '
    ensures DecodeTerms(t + " + x" + d) == Some(vars + [i])
  {
    SplitTerm(t, d);
  }

  /** The last space of `t + " + x" + d` is the one before `x`. */
  lemma SplitTerm(t: string, d: string)
    requires forall k :: 0 <= k < |d| ==> d[k] != ' '
    ensures var s := t + " + x" + d;
      var p := LastSpace(s);
      && p == |t| + 2 && p + 2 <= |s|
      && s[p - 2..p + 2] == " + x" && s[..p - 2] == t && s[p + 2..] == d
  {
    var s := t + " + x" + d;
    assert s == (t + " +") + " " + ("x" + d);
    LastSpaceAfter(t + " +", "x" + d);
  }

  /**
   * The objective line reads back as the sum of `x1 .. xn`; with no nodes it
   * still names `x1`, so zero nodes and one node write the same line.
   */
  lemma ObjectiveRoundTrip(n: nat)
    ensures DecodeObjective(Render(Objective(n))) == Some(ObjectiveVars(n))
  {
    ObjectiveText(n);
    TermsRoundTrip(n);
    DecodeObjectiveLine(Terms(n), TermVars(n));
    ObjectiveVarsSplit(n);
  }

  lemma ObjectiveVarsSplit(n: nat)
    ensures ObjectiveVars(n) == [1] + TermVars(n)
  {
  }

  lemma ObjectiveText(n: nat)
    ensures Render(Objective(n)) == "min: x1 " + Terms(n) + ";\n"
  {
  }

  lemma DecodeObjectiveLine(t: string, vars: seq<int>)
    requires DecodeTerms(t) == Some(vars)
    ensures DecodeObjective("min: x1 " + t + ";\n") == Some([1] + vars)
  {
    var line := "min: x1 " + t + ";\n";
    assert line[..8] == "min: x1 ";
    assert line[8..|line| - 2] == t;
    assert line[|line| - 2..] == ";\n";
  }

  lemma {:induction false} BoundsAt(n: nat, k: nat)
    requires k < 2 * n
    ensures |Bounds(n)| == 2 * n
    ensures Bounds(n)[k] == if k % 2 == 0 then LowerBound(k / 2 + 1) else UpperBound(k / 2 + 1)
  {
    BoundsLength(n - 1);
    if k < 2 * (n - 1) {
      BoundsAt(n - 1, k);
    } else if k == 2 * n - 2 {
      assert k % 2 == 0 && k / 2 + 1 == n;
    } else {
      assert k % 2 == 1 && k / 2 + 1 == n;
    }
  }

  lemma {:induction false} BoundsLength(n: nat)
    ensures |Bounds(n)| == 2 * n
  {
    if n > 0 {
      BoundsLength(n - 1);
    }
  }

  /** The bounds of `Bounds(n)` are exactly the two bounds of each of `x1 .. xn`. */
  lemma {:induction false} BoundsMembers(n: nat)
    ensures forall s :: s in Bounds(n) <==> (s.LowerBound? || s.UpperBound?) && 1 <= s.i <= n
  {
    if n > 0 {
      BoundsMembers(n - 1);
      assert forall s :: s in Bounds(n) <==> s in Bounds(n - 1) || s == LowerBound(n) || s == UpperBound(n);
    }
  }

  /**
   * The layout of the model: the objective, then the two bounds of `x1`,
   * ..., `xn` in turn, then one constraint per edge in order; `1 + 2n + |E|`
   * statements in all.
   */
  lemma ModelLayout(n: nat, edges: seq<Edge>)
    ensures |Model(n, edges)| == 1 + 2 * n + |edges|
    ensures Model(n, edges)[0] == Objective(n)
    ensures forall k :: 1 <= k <= 2 * n ==>
      Model(n, edges)[k] == if k % 2 == 1 then LowerBound((k + 1) / 2) else UpperBound(k / 2)
    ensures forall k :: 1 + 2 * n <= k < 1 + 2 * n + |edges| ==>
      Model(n, edges)[k] == CoverConstraint(edges[k - 1 - 2 * n])
  {
    var m := Model(n, edges);
    BoundsLength(n);
    forall k | 1 <= k <= 2 * n
      ensures m[k] == if k % 2 == 1 then LowerBound((k + 1) / 2) else UpperBound(k / 2)
    {
      assert m[k] == Bounds(n)[k - 1];
      BoundsAt(n, k - 1);
    }
    forall k | 1 + 2 * n <= k < |m| ensures m[k] == CoverConstraint(edges[k - 1 - 2 * n]) {
      assert m[k] == Constraints(edges)[k - 1 - 2 * n];
    }
  }

  /** Every line after the objective reads back as the statement of the model it renders. */
  lemma ModelReadBack(n: nat, edges: seq<Edge>)
    ensures |RenderAll(Model(n, edges))| == 1 + 2 * n + |edges|
    ensures forall k :: 1 <= k < 1 + 2 * n + |edges| ==>
      Decode(RenderAll(Model(n, edges))[k]) == Some(Model(n, edges)[k])
  {
    var m := Model(n, edges);
    ModelLayout(n, edges);
    forall k | 1 <= k < |m| ensures Decode(RenderAll(m)[k]) == Some(m[k]) {
      RenderRoundTrip(m[k]);
    }
  }

  lemma RenderAllAppend(a: seq<Statement>, b: seq<Statement>)
    ensures RenderAll(a + b) == RenderAll(a) + RenderAll(b)
  {
  }

  /** One pass of the loop building `minimizing_function` appends the next term. */
  lemma ObjectiveStep(objective: string, i: nat)
    requires i >= 2 && objective == ObjectiveTerms(i - 1)
    ensures objective + " + x" + IntToString(i) == ObjectiveTerms(i)
  {
  }

  /** Appending the `min:` line writes the objective statement. */
  lemma ObjectiveWritten(n: nat, objective: string)
    requires objective == ObjectiveTerms(n)
    ensures ["min: " + objective + ";\n"] == RenderAll([Objective(n)])
  {
  }

  /** One pass of the loop over the variables writes the two bounds of the next one. */
  lemma BoundsStep(n: nat, i: nat, lines: seq<string>)
    requires lines == RenderAll([Objective(n)] + Bounds(i))
    ensures lines + ["x" + IntToString(i + 1) + " >= 0;\n"] + ["x" + IntToString(i + 1) + " <= 1;\n"]
      == RenderAll([Objective(n)] + Bounds(i + 1))
  {
    RenderAllAppend([Objective(n)] + Bounds(i), [LowerBound(i + 1), UpperBound(i + 1)]);
    assert ([Objective(n)] + Bounds(i)) + [LowerBound(i + 1), UpperBound(i + 1)]
      == [Objective(n)] + Bounds(i + 1);
  }

  /** One pass of the loop over the edges writes the constraint of the next one. */
  lemma ConstraintsStep(n: nat, edges: seq<Edge>, j: nat, lines: seq<string>)
    requires j < |edges|
    requires lines == RenderAll([Objective(n)] + Bounds(n) + Constraints(edges[..j]))
    ensures lines + ["x" + IntToString(edges[j].u) + " + x" + IntToString(edges[j].v) + " >= 1;\n"]
      == RenderAll([Objective(n)] + Bounds(n) + Constraints(edges[..j + 1]))
  {
    var edge := edges[j];
    assert Render(CoverConstraint(edge))
      == "x" + IntToString(edge.u) + " + x" + IntToString(edge.v) + " >= 1;\n";
    RenderAllAppend([Objective(n)] + Bounds(n) + Constraints(edges[..j]), [CoverConstraint(edge)]);
    assert Constraints(edges[..j]) + [CoverConstraint(edge)] == Constraints(edges[..j + 1]);
    assert [Objective(n)] + Bounds(n) + Constraints(edges[..j]) + [CoverConstraint(edge)]
      == [Objective(n)] + Bounds(n) + Constraints(edges[..j + 1]);
  }

  /**
   * The text-building part of `lp_vc`: the lines written to the model file
   * for a graph with node set `nodes` and edge set `edges` (listed in the
   * set's iteration order). Variable `xi` stands for the i-th node.
   */
  method BuildLpLines(nodes: set<int>, edges: seq<Edge>) returns (lines: seq<string>)
    ensures lines == RenderAll(Model(|nodes|, edges))
  {
    var n := |nodes|;
    lines := [];
    var objective := "x1 ";
    var i := 2;
    while i < n + 1
      invariant 2 <= i && (i <= n + 1 || i == 2)
      invariant objective == ObjectiveTerms(i - 1)
    {
      ObjectiveStep(objective, i);
      objective := objective + " + x" + IntToString(i);
      i := i + 1;
    }
    ObjectiveWritten(n, objective);
    lines := lines + ["min: " + objective + ";\n"];

    for i := 0 to n
      invariant lines == RenderAll([Objective(n)] + Bounds(i))
    {
      BoundsStep(n, i, lines);
      lines := lines + ["x" + IntToString(i + 1) + " >= 0;\n"];
      lines := lines + ["x" + IntToString(i + 1) + " <= 1;\n"];
    }

    for j := 0 to |edges|
      invariant lines == RenderAll([Objective(n)] + Bounds(n) + Constraints(edges[..j]))
    {
      var edge := edges[j];
      ConstraintsStep(n, edges, j, lines);
      lines := lines + ["x" + IntToString(edge.u) + " + x" + IntToString(edge.v) + " >= 1;\n"];
    }
    assert edges[..|edges|] == edges;
  }
}
