/**
 * The `no_flecs_with` late lint pass: the matcher for the path `flecs::With`
 * and the per-expression decision of `check_expr`.
 *
 * As the pass is written, `check_expr` reports EVERY path expression; the
 * matcher exists but its only call sits in code that is commented out. The
 * model reproduces that behaviour, and the lemmas below say both what the
 * matcher decides and that path expressions are reported whether or not it
 * would accept them.
 */
module NoFlecsWith {
  import opened Hir

  /** The note attached to every diagnostic (also the lint's description). */
  const Note: string := "usage of flecs::With is discouraged"

  /** The banned path, as its two leading segments. */
  const BannedPath: seq<string> := ["flecs", "With"]

  /** One diagnostic handed to the host's reporting machinery. */
  datatype Finding = Finding(span: Span, note: string)

  // ---------------------------------------------------------------------
  // Matcher
  // ---------------------------------------------------------------------

  /** True when a path's segments name `flecs::With`: at least two segments,
      the first exactly "flecs" and the second exactly "With". The length
      test comes first, so the two indexings are always in range. */
  predicate PathMatchesFlecsWith(segments: seq<string>)
  {
    |segments| >= 2 && segments[0] == "flecs" && segments[1] == "With"
  }

  /** The matcher accepts exactly the paths that begin with `flecs::With`,
      whatever follows. */
  lemma MatchesIffBannedPrefix(segments: seq<string>)
    ensures PathMatchesFlecsWith(segments) <==>
            exists rest: seq<string> :: segments == BannedPath + rest
  {
    if PathMatchesFlecsWith(segments) {
      assert segments == BannedPath + segments[2..];
    }
    if rest: seq<string> :| segments == BannedPath + rest {
      assert segments[0] == BannedPath[0] && segments[1] == BannedPath[1];
    }
  }

  /** Paths of fewer than two segments never match. */
  lemma ShortPathsNeverMatch(segments: seq<string>)
    requires |segments| < 2
    ensures !PathMatchesFlecsWith(segments)
  {
  }

  /** Segments after the second do not change the verdict. */
  lemma TrailingSegmentsIgnored(segments: seq<string>, extra: seq<string>)
    requires |segments| >= 2
    ensures PathMatchesFlecsWith(segments + extra) == PathMatchesFlecsWith(segments)
  {
  }

  /** Segment comparison is exact and case-sensitive: a different module
      name, a different capitalisation of either segment, or a different
      order is rejected, while a longer path under `flecs::With` is accepted. */
  lemma MatchIsExact()
    ensures PathMatchesFlecsWith(["flecs", "With"])
    ensures PathMatchesFlecsWith(["flecs", "With", "Extra"])
    ensures !PathMatchesFlecsWith(["my_module", "With"])
    ensures !PathMatchesFlecsWith(["Flecs", "With"])
    ensures !PathMatchesFlecsWith(["flecs", "with"])
    ensures !PathMatchesFlecsWith(["With", "flecs"])
    ensures !PathMatchesFlecsWith(["With"])
    ensures !PathMatchesFlecsWith([])
  {
  }

  // ---------------------------------------------------------------------
  // Site decision
  // ---------------------------------------------------------------------

  /** `check_expr`: the findings emitted for one expression node. A path
      expression of any shape gets one finding at its own span carrying
      `Note`; every other kind of expression gets none. The pass keeps no
      state, so the findings depend on the node alone. */
  function CheckExpr(e: Expr): (fs: seq<Finding>)
    ensures |fs| == (if e.kind.Path? then 1 else 0)
    ensures forall f :: f in fs ==> f.span == e.span && f.note == Note
  {
    match e.kind
    case Path(_) => [Finding(e.span, Note)]
    case Other => []
  }

  /** An expression that is not a path yields no finding. */
  lemma NonPathYieldsNothing(e: Expr)
    requires !e.kind.Path?
    ensures CheckExpr(e) == []
  {
  }

  /** A path expression yields exactly one finding, at its own span and with
      `Note`, whatever its shape and segments. */
  lemma EveryPathYieldsOneFinding(q: QPath, span: Span)
    ensures CheckExpr(Expr(Path(q), span)) == [Finding(span, Note)]
  {
  }

  /** The findings depend only on whether the node is a path and on its span,
      never on the path's segments. */
  lemma FindingsIgnoreSegments(e1: Expr, e2: Expr)
    requires e1.kind.Path? == e2.kind.Path? && e1.span == e2.span
    ensures CheckExpr(e1) == CheckExpr(e2)
  {
  }

  /** A resolved path naming `flecs::With` is reported exactly once. */
  lemma MatchingPathYieldsExactlyOne(segments: seq<string>, span: Span)
    requires PathMatchesFlecsWith(segments)
    ensures |CheckExpr(Expr(Path(Resolved(segments)), span))| == 1
    ensures CheckExpr(Expr(Path(Resolved(segments)), span))[0].span == span
  {
  }

  /** A resolved path the matcher rejects is reported all the same: the
      matcher does not gate emission. */
  lemma NonMatchingPathAlsoFlagged(segments: seq<string>, span: Span)
    requires !PathMatchesFlecsWith(segments)
    ensures CheckExpr(Expr(Path(Resolved(segments)), span)) == [Finding(span, Note)]
  {
  }

  // ---------------------------------------------------------------------
  // The pass over the nodes the host visits
  // ---------------------------------------------------------------------

  /** The number of path expressions among the visited nodes. */
  function PathCount(visited: seq<Expr>): nat
  {
    if visited == [] then 0
    else (if visited[0].kind.Path? then 1 else 0) + PathCount(visited[1..])
  }

  /** The findings of a whole run of the pass: the host walks the IR and
      calls `check_expr` once per expression node, in its own order; the
      findings are those of each call, in that order. There is one finding
      per path expression and every finding carries `Note`. */
  function CheckAll(visited: seq<Expr>): (fs: seq<Finding>)
    ensures |fs| == PathCount(visited)
    ensures forall i :: 0 <= i < |fs| ==> fs[i].note == Note
  {
    if visited == [] then []
    else CheckExpr(visited[0]) + CheckAll(visited[1..])
  }

  /** No path expression is missed: each one visited contributes a finding
      at its own span. */
  lemma {:induction false} EveryVisitedPathReported(visited: seq<Expr>, j: nat)
    requires j < |visited| && visited[j].kind.Path?
    ensures Finding(visited[j].span, Note) in CheckAll(visited)
  {
    if j == 0 {
      assert CheckAll(visited)[0] == Finding(visited[0].span, Note);
    } else {
      EveryVisitedPathReported(visited[1..], j - 1);
      assert visited[1..][j - 1] == visited[j];
      assert CheckAll(visited) == CheckExpr(visited[0]) + CheckAll(visited[1..]);
    }
  }

  /** No finding is spurious: each one is the finding of some visited path
      expression, at that expression's span. */
  lemma {:induction false} EveryFindingFromAVisitedPath(visited: seq<Expr>, i: nat)
    requires i < |CheckAll(visited)|
    ensures exists j :: 0 <= j < |visited| && visited[j].kind.Path? &&
                        CheckAll(visited)[i] == Finding(visited[j].span, Note)
  {
    var head := CheckExpr(visited[0]);
    assert CheckAll(visited) == head + CheckAll(visited[1..]);
    if i < |head| {
      assert CheckAll(visited)[i] == Finding(visited[0].span, Note);
    } else {
      EveryFindingFromAVisitedPath(visited[1..], i - |head|);
      var k :| 0 <= k < |visited[1..]| && visited[1..][k].kind.Path? &&
               CheckAll(visited[1..])[i - |head|] == Finding(visited[1..][k].span, Note);
      assert visited[k + 1] == visited[1..][k];
    }
  }

  /** Each visited resolved path naming `flecs::With` is reported. */
  lemma EveryVisitedMatchReported(visited: seq<Expr>, j: nat)
    requires j < |visited| && visited[j].kind.Path? && visited[j].kind.qpath.Resolved?
    requires PathMatchesFlecsWith(visited[j].kind.qpath.segments)
    ensures Finding(visited[j].span, Note) in CheckAll(visited)
  {
    EveryVisitedPathReported(visited, j);
  }

  /** `check_expr` never reads or writes the pass's own state, so the
      findings of two consecutive stretches of the walk are the findings of
      each, one after the other. In particular, visiting the same node again
      reports it again, identically. */
  lemma {:induction false} CheckAllAppend(a: seq<Expr>, b: seq<Expr>)
    ensures CheckAll(a + b) == CheckAll(a) + CheckAll(b)
  {
    if a == [] {
      assert a + b == b;
    } else {
      var ab := a + b;
      assert ab[0] == a[0] && ab[1..] == a[1..] + b;
      CheckAllAppend(a[1..], b);
      var h := CheckExpr(a[0]);
      assert CheckAll(ab) == h + (CheckAll(a[1..]) + CheckAll(b));
      assert CheckAll(a) == h + CheckAll(a[1..]);
    }
  }

  /** Each visited node contributes exactly its own findings, in place: a
      path node exactly one finding at its span, any other node none, even
      when other visited nodes share its span. */
  lemma SiteContributesItsOwnFindings(before: seq<Expr>, e: Expr, after: seq<Expr>)
    ensures CheckAll(before + [e] + after) == CheckAll(before) + CheckExpr(e) + CheckAll(after)
  {
    CheckAllAppend(before + [e], after);
    CheckAllAppend(before, [e]);
    assert [e][1..] == [];
  }
}
