# no_flecs_with, modelled in Dafny

`no_flecs_with` is a late lint pass for the Rust compiler. It is loaded through
dylint and is meant to report uses of `flecs::With`. The compiler walks its high-level IR
and calls the pass's `check_expr` once for every expression node. This project
models two things:

- the matcher `path_matches_flecs_with`. It accepts a path whose first two
  segments are exactly `flecs` and `With`.
- the per-node decision of `check_expr`. It returns the diagnostics that one
  node produces.

A run of the pass over the sequence of nodes the compiler visits is modelled
too. That is where the properties about many calls live: nothing missed,
nothing spurious, and each node contributing exactly its own findings.

Files:

- `hir.dfy` (module `Hir`) holds the slice of the compiler IR the pass reads.
  An expression is its kind plus its span. The kind is a path (`QPath` with
  three shapes: resolved with its segment names, type-relative, or lang-item)
  or any other kind. Spans are opaque and are only copied.
- `no_flecs_with.dfy` (module `NoFlecsWith`) holds the matcher
  (`PathMatchesFlecsWith`) and `CheckExpr`, the model of `check_expr`. A
  diagnostic is a `Finding` made of a span and a note string. It also holds
  `CheckAll`, the pass applied to every visited node, and the lemmas.

The lint's own documentation (src/lib.rs:28-29) says it detects usage of
`flecs::With`. As written, though, `check_expr` reports every path expression,
whatever the path is, because the matcher call at src/lib.rs:60-68 is
commented out. The matcher is therefore never called. The model follows the
code. `CheckExpr` flags every path, and `NonMatchingPathAlsoFlagged` states
this for paths the matcher rejects.

`check_expr` never reads or writes `self` (src/lib.rs:51-58). So calling it
twice on the same node gives the same findings twice, and nothing carries over
from one call to the next. `CheckExpr` is a function of the node alone, and
`CheckAll` combines the calls' results in order. `CheckAllAppend` and
`SiteContributesItsOwnFindings` state the consequence for a whole walk. Each
node contributes exactly its own findings, even when several nodes share a
span.

## Model

| member | source | states |
|---|---|---|
| `NoFlecsWith.MatchesIffBannedPrefix` | src/lib.rs:72-76 | the matcher accepts a segment list exactly when the list is `flecs`, `With` followed by anything (both directions) |
| `NoFlecsWith.ShortPathsNeverMatch` | src/lib.rs:73-75 | a path of fewer than two segments is rejected; the length test comes before both indexings, so neither is out of range |
| `NoFlecsWith.TrailingSegmentsIgnored` | src/lib.rs:73-75 | appending segments to a path of two or more segments does not change the verdict |
| `NoFlecsWith.MatchIsExact` | src/lib.rs:74-75 | comparison is exact and case-sensitive: `my_module::With`, `Flecs::With`, `flecs::with`, `With::flecs`, `With` and the empty path are rejected; `flecs::With` and `flecs::With::Extra` are accepted |
| `NoFlecsWith.CheckExpr` | src/lib.rs:51-58 | one node yields one finding if it is a path expression and none otherwise; every finding sits at the node's own span and carries the note `usage of flecs::With is discouraged` |
| `NoFlecsWith.NonPathYieldsNothing` | src/lib.rs:52-54 | a node whose kind is not a path yields no finding |
| `NoFlecsWith.EveryPathYieldsOneFinding` | src/lib.rs:52-58 | a path node of any shape (resolved, type-relative, lang-item) yields exactly the one finding at its span with the note |
| `NoFlecsWith.FindingsIgnoreSegments` | src/lib.rs:50-58 | two nodes that agree on being a path and on their span yield the same findings: segments and other hidden state play no part |
| `NoFlecsWith.MatchingPathYieldsExactlyOne` | src/lib.rs:52-58 | a resolved path that the matcher accepts is reported exactly once (not zero times, not twice), at its own span |
| `NoFlecsWith.NonMatchingPathAlsoFlagged` | src/lib.rs:52-58 | a resolved path that the matcher rejects is reported too, because the matcher does not gate emission |
| `NoFlecsWith.CheckAll` | src/lib.rs:50-58 | over the sequence of nodes the compiler visits, the pass yields one finding per path node and every finding carries the note |
| `NoFlecsWith.EveryVisitedPathReported` | src/lib.rs:50-58 | no false negative: every visited path node has a finding at its span among the pass's findings |
| `NoFlecsWith.EveryFindingFromAVisitedPath` | src/lib.rs:50-58 | no spurious finding: each finding is the finding of some visited path node, at that node's span |
| `NoFlecsWith.EveryVisitedMatchReported` | src/lib.rs:52-58 | every visited resolved path naming `flecs::With` is reported |
| `NoFlecsWith.CheckAllAppend` | src/lib.rs:50-58 | `check_expr` keeps no state in `self`, so the findings for two consecutive stretches of the walk are each stretch's findings in order, and revisiting a node reports it again in the same way |
| `NoFlecsWith.SiteContributesItsOwnFindings` | src/lib.rs:50-58 | each visited node contributes exactly its own findings in place: one finding for a path node, none otherwise, even when other visited nodes share its span |

## Left out

- The compiler's IR types and lint API (`Expr`, `ExprKind`, `QPath`, `LateContext`, `span_lint`, the diagnostic builder). They are foreign code. They are abstracted as the `Hir` datatypes plus a returned list of `Finding` values.
- Lint levels and macro filtering. A `Finding` stands for one `span_lint` request, not one displayed diagnostic. The compiler can still drop a request: under `#[allow(no_flecs_with)]`, or for a span from an external macro, since the lint does not opt into reporting there. So "nothing missed" holds for requests only.
- The walk over the IR. The compiler drives it, not the pass. `CheckAll` takes the visited nodes as a given sequence, in whatever order the compiler chooses.
- The lint declaration through `declare_late_lint!`: the name `NO_FLECS_WITH`, the `Warn` level and the doc text. It is registration plumbing. Its description string is the same text as `Note`.
- The `ui` test. It runs fixture files through an external test tool.
- The commented-out, match-gated emission (src/lib.rs:60-68). It is not live code.
- How spans map to source text, and how diagnostics are rendered. Spans are opaque values that are copied through unchanged.
