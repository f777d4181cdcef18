/**
 * One row of the mapping workbook after parsing: the raw `Table[.Field]`
 * strings and their parsed components. Absent components are `None`,
 * standing for Java's null.
 */
module MappingEntries {
  import opened Text

  datatype MappingEntry = MappingEntry(
    deprecatedObject: string,
    newObject: Option<string>,
    deprecatedTable: string,
    deprecatedField: Option<string>,
    newTable: Option<string>,
    newField: Option<string>)

  /** `isFieldLevelMapping`: the deprecated object names a field. */
  predicate IsFieldLevelMapping(m: MappingEntry) {
    m.deprecatedField.Some? && m.deprecatedField.value != ""
  }

  /** `isTableLevelMapping`: the deprecated object names a whole table. */
  predicate IsTableLevelMapping(m: MappingEntry) {
    m.deprecatedField.None? || m.deprecatedField.value == ""
  }

  /** Every entry is classified as exactly one of the two kinds. */
  lemma ExactlyOneLevel(m: MappingEntry)
    ensures IsFieldLevelMapping(m) != IsTableLevelMapping(m)
  {
  }

  /** The classification looks at `deprecatedField` and at nothing else. */
  lemma LevelDependsOnlyOnField(m: MappingEntry, n: MappingEntry)
    requires m.deprecatedField == n.deprecatedField
    ensures IsFieldLevelMapping(m) == IsFieldLevelMapping(n)
    ensures IsTableLevelMapping(m) == IsTableLevelMapping(n)
  {
  }
}
