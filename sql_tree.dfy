/**
 * The fragment of the parsed statement tree that the structural migrator
 * visits. Every expression kind it does not descend into is `Other`; a select
 * item without an expression is `Other` as well.
 */
module SqlTree {
  import opened Text

  datatype Expr =
    | Column(table: Option<string>, name: string)
    | Binary(left: Expr, right: Expr)
    | ParenList(items: seq<Expr>)
    | Func(params: seq<Expr>)
    | Between(operand: Expr, low: Expr, high: Expr)
    | In(left: Expr)
    | Other

  datatype FromItem = TableRef(name: string, alias: Option<string>) | NonTable

  datatype Join = Join(right: FromItem, on: seq<Expr>)

  datatype PlainSelect = PlainSelect(
    items: seq<Expr>,
    from: Option<FromItem>,
    joins: seq<Join>,
    where: Option<Expr>,
    groupBy: seq<Expr>,
    orderBy: seq<Expr>)

  /** A plain select, a set operation (UNION and the like) over selects, or any other select form. */
  datatype Select = Plain(body: PlainSelect) | SetOp(selects: seq<Select>) | OtherSelect

  /** What the SQL parser returns for a sanitized query. */
  datatype ParseResult = Parsed(select: Select) | NotSelect | ParseError
}
