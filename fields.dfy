/** The part of a Django model field the backend reads. */
module ModelFields {
  import opened Wrappers

  /** A model field: its attribute name, its default column, an optional
      `db_column` override and whether it carries `db_index`. */
  datatype Field = Field(name: string, column: string, dbColumn: Option<string>, dbIndex: bool)

  /** `db_column if db_column else column`: an empty override counts as unset. */
  function ColumnName(f: Field): string {
    if f.dbColumn.Some? && f.dbColumn.value != "" then f.dbColumn.value else f.column
  }
}
