/** A table reference in a query's FROM clause: its name and, optionally, the alias it is given. */
module TableInfos {
  import opened Wrappers

  /** alias is None when the query gives the table no alias (Java's null). */
  datatype TableInfo = TableInfo(tableName: string, alias: Option<string>)

  /** getAlias: the name the rest of the query uses for the table — its alias if it has one, else its name. */
  function GetAlias(t: TableInfo): (name: string)
    ensures t.alias.Some? ==> name == t.alias.value
    ensures t.alias.None? ==> name == t.tableName
  {
    match t.alias
    case Some(a) => a
    case None => t.tableName
  }
}
