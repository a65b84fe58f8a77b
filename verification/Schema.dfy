/** The runtime view of a schema (packages/schema/src/meta.ts). */
module Schema {
  import opened Values

  datatype ColumnKind = TextKind | BytesKind | IntKind | FloatKind | BoolKind

  datatype ColumnInfo = ColumnInfo(name: string, kind: ColumnKind, nullable: bool)

  datatype IndexInfo = IndexInfo(name: string, columns: seq<string>, unique: bool)

  datatype TableInfo = TableInfo(
    name: string,
    pk: string,
    columns: seq<ColumnInfo>,
    indexes: seq<IndexInfo>,
    strictIndexes: bool)

  /** What compiling a schema guarantees: the primary key is a column of every index, and
      index names are distinct and none is the name of the primary keyspace. */
  ghost predicate WellFormed(t: TableInfo) {
    && (forall i :: 0 <= i < |t.indexes| ==> t.pk in t.indexes[i].columns && t.indexes[i].name != "pk")
    && (forall i, j :: 0 <= i < j < |t.indexes| ==> t.indexes[i].name != t.indexes[j].name)
  }
}
