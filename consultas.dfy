/** What the catalog repositories share when they assemble a query: Python
    truthiness decides which optional filters enter the `WHERE` clause, and a
    filter compares a possibly NULL column. */
module Consultas {
  import opened Wrappers
  import opened Text

  /** `if s:` on an optional string: present and not empty. */
  predicate TextoVerdadero(s: Option<string>) {
    s.Some? && s.value != ""
  }

  /** `if n:` on an optional integer: present and not zero. */
  predicate EnteroVerdadero(n: Option<int>) {
    n.Some? && n.value != 0
  }

  /** `columna LIKE '%t%'`: the column holds `t` somewhere; NULL matches nothing. */
  predicate Como(columna: Option<string>, t: string) {
    columna.Some? && Contains(columna.value, t)
  }

  /** The messages of the RuntimeError a write raises when `cursor.rowcount` is 0. */
  const ErrorInsertar := "Insert no rows affected"
  const ErrorActualizar := "Update affected no rows"
  const ErrorBorrar := "Delete affected no rows"
}
