/**
 * The slice of the compiler's high-level IR that the `no_flecs_with` lint
 * looks at. The IR is owned by the host compiler; the lint only borrows one
 * expression node at a time, so everything here is a plain value.
 */
module Hir {

  /** A source location. The lint never inspects it, it only copies it
      into the diagnostic it emits. */
  datatype Span = Span(lo: nat, hi: nat)

  /** A possibly-qualified path in expression position. Only `Resolved`
      carries the path's name segments (each segment's identifier text);
      the other two shapes have no segment list the matcher could read. */
  datatype QPath =
    | Resolved(segments: seq<string>)
    | TypeRelative(segment: string)
    | LangItem

  /** The kind of an expression node. The lint distinguishes a path
      expression from every other kind, so all other kinds are one case. */
  datatype ExprKind =
    | Path(qpath: QPath)
    | Other

  /** One expression node: its kind and its own span. */
  datatype Expr = Expr(kind: ExprKind, span: Span)
}
