/** The dependency query `name<op>version` of a manifest's `depens` list
    (`PackageQuery` and `PackageQuery::parse`). */
module Dependencies {
  import opened Wrappers
  import opened Text

  datatype PackageQuery = PackageQuery(name: string, version: string, comparisonOperator: string)

  /** The three error messages `parse` can return. */
  datatype QueryError =
    | OperatorNotFound   // no comparison operator in the query
    | MalformedQuery     // the chosen operator does not split it into exactly two pieces
    | EmptyField         // the name or the version is empty after trimming

  /** The operators in the order `parse` tries them. */
  const Operators: seq<string> := ["<=", ">=", "=", "<", ">"]

  /** `op` is the operator `parse` settles on: the first of `Operators`, in list order,
      that occurs anywhere in the query. */
  predicate ChosenOperator(query: string, op: string) {
    exists k ::
      && 0 <= k < |Operators| && Operators[k] == op && Contains(query, op)
      && (forall j :: 0 <= j < k ==> !Contains(query, Operators[j]))
  }

  /** `ops.iter().find(|op| query.contains(op))`. */
  function FindOperator(query: string, ops: seq<string>): (r: Option<string>)
    ensures r.Some? ==> exists k ::
      && 0 <= k < |ops| && ops[k] == r.value && Contains(query, ops[k])
      && (forall j :: 0 <= j < k ==> !Contains(query, ops[j]))
    ensures r.None? <==> forall k :: 0 <= k < |ops| ==> !Contains(query, ops[k])
    decreases |ops|
  {
    if |ops| == 0 then None
    else if Contains(query, ops[0]) then Some(ops[0])
    else
      var r := FindOperator(query, ops[1..]);
      assert r.Some? ==> exists k ::
        && 0 <= k < |ops| && ops[k] == r.value && Contains(query, ops[k])
        && (forall j :: 0 <= j < k ==> !Contains(query, ops[j])) by {
        if r.Some? {
          var k :|
            && 0 <= k < |ops| - 1 && ops[1..][k] == r.value && Contains(query, ops[1..][k])
            && (forall j :: 0 <= j < k ==> !Contains(query, ops[1..][j]));
          assert forall j :: 0 <= j < k + 1 ==> !Contains(query, ops[j]) by {
            forall j | 0 <= j < k + 1 ensures !Contains(query, ops[j]) {
              if j > 0 { assert ops[j] == ops[1..][j - 1]; }
            }
          }
        }
      }
      assert r.None? ==> forall k :: 0 <= k < |ops| ==> !Contains(query, ops[k]) by {
        if r.None? {
          forall k | 0 <= k < |ops| ensures !Contains(query, ops[k]) {
            if k > 0 { assert ops[k] == ops[1..][k - 1]; }
          }
        }
      }
      r
  }

  /** `PackageQuery::parse`: pick the operator, split the query by it, require exactly two
      pieces, trim both and require both non-empty. The version is not validated. */
  function Parse(query: string): Result<PackageQuery, QueryError> {
    match FindOperator(query, Operators)
    case None => Err(OperatorNotFound)
    case Some(op) =>
      var parts := Split(query, op);
      if |parts| != 2 then Err(MalformedQuery)
      else
        var name := Trim(parts[0]);
        var version := Trim(parts[1]);
        if name == "" || version == "" then Err(EmptyField)
        else Ok(PackageQuery(name, version, op))
  }

  /** The operator `parse` settles on is the only one that is chosen. */
  lemma ChosenOperatorUnique(query: string, op: string, o: string)
    requires ChosenOperator(query, op) && ChosenOperator(query, o)
    ensures o == op
  {
    var k :|
      && 0 <= k < |Operators| && Operators[k] == o && Contains(query, o)
      && (forall j :: 0 <= j < k ==> !Contains(query, Operators[j]));
    var k' :|
      && 0 <= k' < |Operators| && Operators[k'] == op && Contains(query, op)
      && (forall j :: 0 <= j < k' ==> !Contains(query, Operators[j]));
    assert k == k';
  }

  /** `parse` reports a missing operator exactly when the query holds none of them. */
  lemma ParseNoOperator(query: string)
    ensures Parse(query) == Err(OperatorNotFound) <==> forall o :: o in Operators ==> !Contains(query, o)
  {
    if FindOperator(query, Operators).None? {
      forall o | o in Operators ensures !Contains(query, o) {
        var k :| 0 <= k < |Operators| && Operators[k] == o;
      }
    }
  }

  /** `parse` reports too many pieces exactly when the chosen operator occurs twice. */
  lemma ParseMalformed(query: string)
    ensures Parse(query) == Err(MalformedQuery) <==> exists op :: ChosenOperator(query, op) && TwoMatches(query, op)
  {
    match FindOperator(query, Operators)
    case None =>
    case Some(op) =>
      assert ChosenOperator(query, op);
      forall o | ChosenOperator(query, o) ensures o == op {
        ChosenOperatorUnique(query, op, o);
      }
      SplitPieces(query, op);
  }

  /** A parsed query carries the chosen operator and a trimmed, non-empty, operator-free name
      and version that surround the operator in the query. */
  lemma ParseSuccess(query: string)
    requires Parse(query).Ok?
    ensures var q := Parse(query).value;
      && ChosenOperator(query, q.comparisonOperator)
      && q.name != "" && q.version != "" && Trimmed(q.name) && Trimmed(q.version)
      && !Contains(q.name, q.comparisonOperator) && !Contains(q.version, q.comparisonOperator)
    ensures var q := Parse(query).value;
      exists a, b :: query == a + q.comparisonOperator + b && Trim(a) == q.name && Trim(b) == q.version
  {
    var op := FindOperator(query, Operators).value;
    assert ChosenOperator(query, op);
    var parts := Split(query, op);
    TrimNotContains(parts[0], op);
    TrimNotContains(parts[1], op);
    assert Join(parts, op) == parts[0] + op + parts[1];
  }

  // ---- properties ----

  /** No character an operator is made of. */
  predicate NoOperatorChar(s: string) {
    '<' !in s && '>' !in s && '=' !in s
  }

  predicate IsOperatorChar(c: char) {
    c == '<' || c == '>' || c == '='
  }

  /** Each operator starts and ends with an operator character. */
  lemma OperatorEnds(o: string)
    requires o in Operators
    ensures |o| > 0 && IsOperatorChar(o[0]) && IsOperatorChar(o[|o| - 1])
  {
  }

  /** A match inside the middle piece is a match in the whole. */
  lemma ContainsInMiddle(n: string, m: string, v: string, o: string)
    requires Contains(m, o)
    ensures Contains(n + m + v, o)
  {
    var q := n + m + v;
    var i: nat :| i <= |m| && StartsAt(m, o, i);
    assert q[|n| + i..|n| + i + |o|] == m[i..i + |o|];
    assert StartsAt(q, o, |n| + i);
  }

  /** A pattern that starts and ends with an operator character, found around a middle
      piece with no such character on either side, lies within the middle piece. */
  lemma MatchInMiddle(n: string, m: string, v: string, o: string)
    requires |o| > 0 && IsOperatorChar(o[0]) && IsOperatorChar(o[|o| - 1])
    requires NoOperatorChar(n) && NoOperatorChar(v)
    requires Contains(n + m + v, o)
    ensures Contains(m, o)
  {
    var q := n + m + v;
    var i: nat :| i <= |q| && StartsAt(q, o, i);
    var w := q[i..i + |o|];
    assert w[0] == q[i] && w[|o| - 1] == q[i + |o| - 1];
    assert |n| <= i;
    assert i + |o| <= |n| + |m|;
    var i' := i - |n|;
    assert w == m[i'..i' + |o|];
    assert StartsAt(m, o, i');
  }

  /** Around a single operator, the only operators a query contains are those inside it. */
  lemma OperatorsInside(n: string, op: string, v: string, o: string)
    requires op in Operators && o in Operators && NoOperatorChar(n) && NoOperatorChar(v)
    ensures Contains(n + op + v, o) <==> Contains(op, o)
  {
    if Contains(op, o) {
      ContainsInMiddle(n, op, v, o);
    }
    if Contains(n + op + v, o) {
      OperatorEnds(o);
      MatchInMiddle(n, op, v, o);
    }
  }

  /** `find` depends only on which operators the query contains. */
  lemma {:induction false} FindOperatorSameContains(q1: string, q2: string, ops: seq<string>)
    requires forall k :: 0 <= k < |ops| ==> (Contains(q1, ops[k]) <==> Contains(q2, ops[k]))
    ensures FindOperator(q1, ops) == FindOperator(q2, ops)
    decreases |ops|
  {
    if |ops| > 0 && !Contains(q1, ops[0]) {
      FindOperatorSameContains(q1, q2, ops[1..]);
    }
  }

  /** Each operator, standing alone, is the one `parse` picks in it. */
  lemma OperatorPicksItself(op: string)
    requires op in Operators
    ensures FindOperator(op, Operators) == Some(op)
  {
    assert StartsAt(op, op, 0);
    NoFirstCharNoMatch("=", "<=");
    NoFirstCharNoMatch("=", ">=");
    assert !Contains("<", "<=");
    NoFirstCharNoMatch("<", ">=");
    NoFirstCharNoMatch("<", "=");
    NoFirstCharNoMatch(">", "<=");
    assert !Contains(">", ">=");
    NoFirstCharNoMatch(">", "=");
    NoFirstCharNoMatch(">", "<");
    NoFirstCharNoMatch(">=", "<=");
  }

  /** Around a clean name and version, the operator itself is the one found. */
  lemma RoundTripFinds(n: string, op: string, v: string)
    requires op in Operators && NoOperatorChar(n) && NoOperatorChar(v)
    ensures FindOperator(n + op + v, Operators) == Some(op)
  {
    var q := n + op + v;
    forall k | 0 <= k < |Operators| ensures Contains(q, Operators[k]) <==> Contains(op, Operators[k]) {
      OperatorsInside(n, op, v, Operators[k]);
    }
    FindOperatorSameContains(q, op, Operators);
    OperatorPicksItself(op);
  }

  /** Around a clean name and version, the operator splits the query into exactly those. */
  lemma RoundTripSplits(n: string, op: string, v: string)
    requires op in Operators && NoOperatorChar(n) && NoOperatorChar(v)
    ensures Split(n + op + v, op) == [n, v]
  {
    assert op[0] in "<>=";
    SplitAtFirst(n, op, v);
    NoFirstCharNoMatch(v, op);
  }

  /** Once the operator is found and occurs in one place only, `parse` splits there and
      trims both sides; a side that trims to nothing is rejected. */
  lemma ParseAt(n: string, op: string, v: string)
    requires FindOperator(n + op + v, Operators) == Some(op)
    requires |op| > 0 && op[0] !in n && op[0] !in v
    ensures Parse(n + op + v) ==
      if Trim(n) == "" || Trim(v) == "" then Err(EmptyField)
      else Ok(PackageQuery(Trim(n), Trim(v), op))
  {
    SplitAtFirst(n, op, v);
    NoFirstCharNoMatch(v, op);
  }

  /** Around one operator and no other operator character, `parse` splits there and
      trims both sides; a side that trims to nothing is rejected. */
  lemma ParseAround(n: string, op: string, v: string)
    requires op in Operators && NoOperatorChar(n) && NoOperatorChar(v)
    ensures Parse(n + op + v) ==
      if Trim(n) == "" || Trim(v) == "" then Err(EmptyField)
      else Ok(PackageQuery(Trim(n), Trim(v), op))
  {
    RoundTripFinds(n, op, v);
    assert op[0] in "<>=";
    ParseAt(n, op, v);
  }

  /** Round trip: a query assembled from a clean name, one of the five operators and a clean
      version parses back into exactly those three parts. */
  lemma ParseRoundTrip(n: string, op: string, v: string)
    requires op in Operators
    requires n != "" && v != "" && Trimmed(n) && Trimmed(v)
    requires NoOperatorChar(n) && NoOperatorChar(v)
    ensures Parse(n + op + v) == Ok(PackageQuery(n, v, op))
  {
    ParseAround(n, op, v);
    TrimTrimmed(n);
    TrimTrimmed(v);
  }

  /** The example in the source's comment. */
  lemma ParseDocExample()
    ensures Parse("example>=1.1.1alpha") == Ok(PackageQuery("example", "1.1.1alpha", ">="))
  {
    assert "example>=1.1.1alpha" == "example" + ">=" + "1.1.1alpha";
    ParseRoundTrip("example", ">=", "1.1.1alpha");
  }

  /** An operator occurring twice leaves three pieces, which is rejected. */
  lemma ParseRejectsRepeatedOperator(a: string, b: string, c: string)
    requires NoOperatorChar(a) && NoOperatorChar(b) && NoOperatorChar(c)
    ensures Parse(a + "=" + b + "=" + c) == Err(MalformedQuery)
  {
    var q := a + "=" + b + "=" + c;
    assert q == a + "=" + (b + "=" + c);
    assert '<' !in q && '>' !in q;
    NoFirstCharNoMatch(q, Operators[0]);
    NoFirstCharNoMatch(q, Operators[1]);
    assert StartsAt(q, Operators[2], |a|) by { assert q[|a|..|a| + 1] == "="; }
    assert FindOperator(q, Operators) == Some("=");
    SplitAtFirst(a, "=", b + "=" + c);
    SplitAtFirst(b, "=", c);
    NoFirstCharNoMatch(c, "=");
    assert |Split(q, "=")| == 3;
  }

  /** `<=` is the first operator in list order, so a query holding it is split by it. */
  lemma LeFoundFirst(n: string, c: string)
    ensures FindOperator(n + "<=" + c, Operators) == Some("<=")
  {
    var q := n + "<=" + c;
    assert StartsAt(q, Operators[0], |n|) by { assert q[|n|..|n| + 2] == "<="; }
  }

  lemma GtJoinHasNoLt(a: string, b: string)
    requires NoOperatorChar(a) && NoOperatorChar(b)
    ensures '<' !in a + ">" + b && !IsWhitespace((a + ">" + b)[|a|])
  {
  }

  /** The operator is chosen by list order, not by position: `<=` wins over an earlier `>`. */
  lemma ParseChoosesByListOrder(a: string, b: string, c: string)
    requires NoOperatorChar(a) && NoOperatorChar(b) && NoOperatorChar(c) && Trim(c) != ""
    ensures Parse(a + ">" + b + "<=" + c) == Ok(PackageQuery(Trim(a + ">" + b), Trim(c), "<="))
  {
    var n := a + ">" + b;
    LeFoundFirst(n, c);
    GtJoinHasNoLt(a, b);
    assert "<="[0] == '<';
    ParseAt(n, "<=", c);
    NotBlank(n, |a|);
  }

  /** A side that is only whitespace is rejected after trimming. */
  lemma ParseRejectsBlankVersion(n: string, op: string, w: string)
    requires op in Operators && NoOperatorChar(n)
    requires forall j :: 0 <= j < |w| ==> IsWhitespace(w[j])
    ensures Parse(n + op + w) == Err(EmptyField)
  {
    assert NoOperatorChar(w) by {
      forall j | 0 <= j < |w| ensures !IsOperatorChar(w[j]) {
        assert IsWhitespace(w[j]);
      }
    }
    ParseAround(n, op, w);
  }
}
