# JdbcCriteriaBase in Dafny

A model of the query-criteria container `JdbcCriteriaBase` of the java-code-generator
repository: a criteria set (table name, result cap, where-logic, registered columns),
the column descriptors its two factories `addJdbcColumnValue` and `addJdbcColumnValues`
build, and the naming helpers `camelize` and `labelize` that give each column its
default label.

- `wrappers.dfy` (`Wrappers`): `Option`, which stands for a Java reference that may be `null`.
- `text.dfy` (`Text`): the `java.lang.String` operations the code relies on: one-character
  upper and lower case over ASCII, `toLowerCase`, `trim`, and blank strings.
- `naming.dfy` (`Naming`): `camelize` as a recursive specification (`CamelizeFrom`,
  `Camelized`, `Labelized`) and as the character loop of the source
  (`CamelizeWithReplacement`), with the properties of the rewrite.
- `jdbc.dfy` (`Jdbc`): the classes. `BoundField<V>` is the entity field that a column's
  `Supplier`/`Consumer` pair reads and writes. `Column<V>` is the anonymous column class:
  V is `T` for a scalar column and `seq<T>` for a list column, the two anonymous classes
  having the same fields and bodies. `Criteria` is `JdbcCriteriaBase`.
- `scenarios.dfy` (`Scenarios`): clients that drive a fresh criteria set through the
  documented behaviours using only the contracts above.

Behaviour of the code a reader might not expect:
- `labelize(null)` does not return `null`: the code calls `s.toLowerCase()` first,
  so a null argument fails. `Naming.Labelize` takes a non-null string.
- only `labelize` lower-cases its input; `camelize` keeps the case of every character it
  does not capitalise.
- a new column's sort order is `columns.size() - 1` taken after the insert, which is its
  0-based registration index only when every insert grew the set (`Scenarios.RejectedRegistration` shows the other case).
- the table-name-only constructor runs the `addColumns()` hook twice (once through the delegated constructor, once
  itself). `Jdbc.Criteria.WithTableName` records this.

## Model

| member | source | states |
|---|---|---|
| `Text.ToUpper` | src/com/cc/jcg/jdbc/JdbcCriteriaBase.java:88 | upper-casing of one character: a-z land in A-Z, every other character is kept |
| `Text.ToLower` | src/com/cc/jcg/jdbc/JdbcCriteriaBase.java:73 | lower-casing of one character: A-Z land in a-z and upper-casing brings them back, every other character is kept |
| `Text.CaseRoundTrip` | src/com/cc/jcg/jdbc/JdbcCriteriaBase.java:73 | lower-casing undoes upper-casing on a-z |
| `Text.LowerCase` | src/com/cc/jcg/jdbc/JdbcCriteriaBase.java:73 | `toLowerCase` keeps the length and lower-cases each position in place |
| `Text.LowerCaseKeepsUnderscores` | src/com/cc/jcg/jdbc/JdbcCriteriaBase.java:73 | lower-casing neither removes nor creates underscores, so labelize sees the same underscores as its argument |
| `Text.TrimStart` | src/com/cc/jcg/jdbc/JdbcCriteriaBase.java:105 | the result is a suffix of the input that does not start with a character up to U+0020, and every character removed is one up to U+0020 |
| `Text.TrimEnd` | src/com/cc/jcg/jdbc/JdbcCriteriaBase.java:105 | the result is a prefix of the input that does not end with a character up to U+0020, and every character removed is one up to U+0020 |
| `Text.LeadingTrimmed` | src/com/cc/jcg/jdbc/JdbcCriteriaBase.java:105 | the count of leading characters `trim` removes: they are all up to U+0020 and the rest is what remains after the front is stripped |
| `Text.Trim` | src/com/cc/jcg/jdbc/JdbcCriteriaBase.java:105 | `trim()` is the middle slice of its input: what precedes and follows it is all characters up to U+0020, and a non-empty result neither starts nor ends with one |
| `Text.TrimEmptyIffBlank` | src/com/cc/jcg/jdbc/JdbcCriteriaBase.java:105 | `trim()` is empty exactly when every character is up to U+0020, the empty string included |
| `Naming.CamelizeWithReplacement` | src/com/cc/jcg/jdbc/JdbcCriteriaBase.java:80-101 | the character loop: null gives null, the empty string is returned as is, any other string gives the recursive rewrite `Camelized(s, replacement)` |
| `Naming.Camelize` | src/com/cc/jcg/jdbc/JdbcCriteriaBase.java:76-78 | public camelize: null stays null, the empty string is returned as is, otherwise the rewrite with the empty replacement |
| `Naming.Labelize` | src/com/cc/jcg/jdbc/JdbcCriteriaBase.java:72-74 | labelize is the rewrite, with a blank for each underscore, of the lower-cased argument; the empty string is returned as is |
| `Naming.CamelizedCharacterRule` | src/com/cc/jcg/jdbc/JdbcCriteriaBase.java:84-97 | the output is, position by position, the replacement for `_`, the upper-cased character at position 0 or right after `_`, the character itself otherwise |
| `Naming.CamelizeLength` | src/com/cc/jcg/jdbc/JdbcCriteriaBase.java:76-78 | camelize output is shorter than its input by exactly the number of underscores |
| `Naming.LabelizeLength` | src/com/cc/jcg/jdbc/JdbcCriteriaBase.java:72-74 | labelize output has the length of its input |
| `Naming.CamelizedHasNoUnderscore` | src/com/cc/jcg/jdbc/JdbcCriteriaBase.java:93-96 | every underscore is replaced: with an underscore-free replacement the output holds no underscore |
| `Naming.CamelizeIdempotent` | src/com/cc/jcg/jdbc/JdbcCriteriaBase.java:76-97 | camelizing a camelized string changes nothing |
| `Naming.LabelizeOrderTotal` | src/com/cc/jcg/jdbc/JdbcCriteriaBase.java:72-74 | labelize("order_total") is "Order Total" |
| `Naming.CamelizeOrderTotal` | src/com/cc/jcg/jdbc/JdbcCriteriaBase.java:76-78 | camelize("order_total") is "OrderTotal" |
| `Jdbc.EffectiveWhereLogic` | src/com/cc/jcg/jdbc/JdbcCriteriaBase.java:104-109 | what a read of the where-logic yields: "AND" for null or blank, the stored string otherwise; never blank |
| `Jdbc.BoundField.Get` | src/com/cc/jcg/jdbc/JdbcCriteriaBase.java:163 | the getter returns the field's current value |
| `Jdbc.BoundField.Set` | src/com/cc/jcg/jdbc/JdbcCriteriaBase.java:168 | the setter stores its argument in the field |
| `Jdbc.Column.constructor` | src/com/cc/jcg/jdbc/JdbcCriteriaBase.java:117-124 | a new column has no sort order, label labelize(name), enabled, the default operator, order-by NONE, and as default the value the getter returns now (same initialisers at lines 213-220) |
| `Jdbc.Column.GetValueType` | src/com/cc/jcg/jdbc/JdbcCriteriaBase.java:126-129 | returns the type given at creation |
| `Jdbc.Column.GetTableName` | src/com/cc/jcg/jdbc/JdbcCriteriaBase.java:131-134 | returns the owning criteria set's current table name |
| `Jdbc.Column.GetColumnName` | src/com/cc/jcg/jdbc/JdbcCriteriaBase.java:136-139 | returns the name given at creation |
| `Jdbc.Column.GetSortOrder` | src/com/cc/jcg/jdbc/JdbcCriteriaBase.java:141-144 | returns the sort order last set |
| `Jdbc.Column.SetSortOrder` | src/com/cc/jcg/jdbc/JdbcCriteriaBase.java:146-149 | stores the sort order (null allowed); label, enabled, operator and order-by are unchanged |
| `Jdbc.Column.GetLabel` | src/com/cc/jcg/jdbc/JdbcCriteriaBase.java:151-154 | returns the label last set |
| `Jdbc.Column.SetLabel` | src/com/cc/jcg/jdbc/JdbcCriteriaBase.java:156-159 | stores the label; the other metadata is unchanged |
| `Jdbc.Column.GetValue` | src/com/cc/jcg/jdbc/JdbcCriteriaBase.java:161-164 | reads the bound field now, not a copy (getValues at lines 257-260 likewise) |
| `Jdbc.Column.SetValue` | src/com/cc/jcg/jdbc/JdbcCriteriaBase.java:166-169 | writes through to the bound field and changes nothing else (lines 262-265 likewise) |
| `Jdbc.Column.IsEnabled` | src/com/cc/jcg/jdbc/JdbcCriteriaBase.java:171-174 | returns the flag last set |
| `Jdbc.Column.SetEnabled` | src/com/cc/jcg/jdbc/JdbcCriteriaBase.java:176-179 | stores the flag; the other metadata is unchanged |
| `Jdbc.Column.SetOperator` | src/com/cc/jcg/jdbc/JdbcCriteriaBase.java:181-184 | stores the operator; the other metadata is unchanged |
| `Jdbc.Column.GetOperator` | src/com/cc/jcg/jdbc/JdbcCriteriaBase.java:186-189 | returns the operator last set |
| `Jdbc.Column.ResetValue` | src/com/cc/jcg/jdbc/JdbcCriteriaBase.java:191-195 | writes the creation-time default back to the field and sets order-by to NONE; sort order, label, enabled and operator are kept (lines 287-291 likewise) |
| `Jdbc.Column.GetOrderBy` | src/com/cc/jcg/jdbc/JdbcCriteriaBase.java:197-200 | returns the order-by last set |
| `Jdbc.Column.SetOrderBy` | src/com/cc/jcg/jdbc/JdbcCriteriaBase.java:202-205 | stores the order-by; the other metadata is unchanged |
| `Jdbc.Criteria.constructor` | src/com/cc/jcg/jdbc/JdbcCriteriaBase.java:18-22 | no table name, unlimited results, where-logic "AND", hook run once |
| `Jdbc.Criteria.WithTableName` | src/com/cc/jcg/jdbc/JdbcCriteriaBase.java:24-27 | table name stored, unlimited results, hook run twice |
| `Jdbc.Criteria.WithTableNameAndMaxResults` | src/com/cc/jcg/jdbc/JdbcCriteriaBase.java:29-34 | both arguments stored, hook run once |
| `Jdbc.Criteria.AddColumns` | src/com/cc/jcg/jdbc/JdbcCriteriaBase.java:36 | one more run of the hook, which may append columns and leaves table name, cap and where-logic unchanged |
| `Jdbc.Criteria.GetTableName` | src/com/cc/jcg/jdbc/JdbcCriteriaBase.java:38-41 | returns the table name last set |
| `Jdbc.Criteria.SetTableName` | src/com/cc/jcg/jdbc/JdbcCriteriaBase.java:43-46 | stores the table name (null allowed); nothing else changes |
| `Jdbc.Criteria.GetMaxResults` | src/com/cc/jcg/jdbc/JdbcCriteriaBase.java:48-51 | returns the cap last set |
| `Jdbc.Criteria.SetMaxResults` | src/com/cc/jcg/jdbc/JdbcCriteriaBase.java:53-56 | stores the cap; nothing else changes |
| `Jdbc.Criteria.GetAllColumns` | src/com/cc/jcg/jdbc/JdbcCriteriaBase.java:58-61 | returns the registered columns |
| `Jdbc.Criteria.GetWhereLogic` | src/com/cc/jcg/jdbc/JdbcCriteriaBase.java:103-109 | returns `EffectiveWhereLogic` of the stored value and stores what it returns, so the field is healthy after any read |
| `Jdbc.Criteria.SetWhereLogic` | src/com/cc/jcg/jdbc/JdbcCriteriaBase.java:111-114 | stores any value verbatim, null and blanks included |
| `Jdbc.Criteria.Register` | src/com/cc/jcg/jdbc/JdbcCriteriaBase.java:207-209 | inserts the column if the set accepts it, then sets its sort order to the new size minus one (lines 303-305 likewise) |
| `Jdbc.Criteria.AddJdbcColumnValue` | src/com/cc/jcg/jdbc/JdbcCriteriaBase.java:116-210 | a fresh scalar column bound to the given field, with its initial metadata, appended if accepted, with sort order size - 1; the criteria's settings are unchanged |
| `Jdbc.Criteria.AddJdbcColumnValues` | src/com/cc/jcg/jdbc/JdbcCriteriaBase.java:212-306 | the same for a list column, with the list default operator and the list the getter returns as default |
| `Scenarios.ScalarValueLifecycle` | src/com/cc/jcg/jdbc/JdbcCriteriaBase.java:161-195 | a column reads v0, after setValue(v1) both it and the field hold v1, after resetValue it reads v0 with order-by NONE and keeps its disabled flag |
| `Scenarios.ListValueLifecycle` | src/com/cc/jcg/jdbc/JdbcCriteriaBase.java:257-291 | the same for a list column: reset restores the list captured at registration |
| `Scenarios.RegistrationOrder` | src/com/cc/jcg/jdbc/JdbcCriteriaBase.java:207-208 | on a set holding n columns after construction, two accepted registrations get sort orders n and n + 1, and the label is labelize of the name |
| `Scenarios.RejectedRegistration` | src/com/cc/jcg/jdbc/JdbcCriteriaBase.java:207-208 | a column the set does not accept gets the same sort order as the last accepted one, n for a set that held n columns |
| `Scenarios.WhereLogicNullFallsBack` | src/com/cc/jcg/jdbc/JdbcCriteriaBase.java:16 | the where-logic reads "AND" at first and after null was stored |
| `Scenarios.WhereLogicBlankFallsBack` | src/com/cc/jcg/jdbc/JdbcCriteriaBase.java:104-109 | blanks are stored as given and replaced by "AND" at the next read |
| `Scenarios.WhereLogicKeepsValue` | src/com/cc/jcg/jdbc/JdbcCriteriaBase.java:104-114 | "OR" is returned as stored, on every read |
| `Scenarios.ColumnTableNameFollowsOwner` | src/com/cc/jcg/jdbc/JdbcCriteriaBase.java:131-134 | a column reports the table name its criteria set has now |
| `Scenarios.DisabledColumnStaysRegistered` | src/com/cc/jcg/jdbc/JdbcCriteriaBase.java:176-179 | a disabled column stays among the registered columns and its flag survives changes to its other metadata |

## Left out

- Concurrency: the `synchronized` methods and `Collections.synchronizedSet` are dropped; everything is single-threaded.
- Jdbc.Criteria.GetAllColumns: returns the columns as a value; the live Java collection (its aliasing with callers) is not modelled.
- Column ordering and duplicate detection: the column set is a `TreeSet` ordered by `JdbcColumn.compareTo`, which is not part of this model. Columns are kept in registration order, and whether an insert is accepted reaches the factories as the argument `accepted`; sorted iteration by sort order and name is not modelled.
- Jdbc.Criteria.AddColumns: the hook is abstract and its bodies, where concrete criteria classes register their columns, are not part of this model. Its contract allows any columns to be appended and a ghost counter records how often each constructor runs it, so the constructors promise nothing about which columns exist; the body in this model registers nothing, and the second registration of every column under the table-name-only constructor is visible only as the count 2.
- `UNLIMITED_RESULTS` and the two default operators come from the interfaces `JdbcCriteria`, `JdbcColumnValue` and `JdbcColumnValues`, which are not part of this model; they are constants of unknown value.
- `valueType` (a `java.lang.Class`) is a string tag.
- `toString`: it relies on reflection (`getClass().getSimpleName()`).
- Case mapping: Java's locale- and Unicode-aware `toUpperCase`/`toLowerCase` are modelled over ASCII letters only (so a character whose upper case is two characters, such as `ß`, is not captured); `trim` is modelled exactly (characters up to U+0020).
- Getter/setter pairs are modelled as a faithful pair over one field; arbitrary `Supplier`/`Consumer` code (side effects, exceptions, a getter that does not return what the setter stored) is not modelled.
- List values are `seq<T>`: in-place mutation of a `java.util.List` and the aliasing of the default snapshot with the live list are not modelled.
- Sort orders are unbounded integers: `columns.size() - 1` cannot leave Java's `int` range.
- Bean07, Bean02, Bean05 and MJsonGeneratorTest (generated bean holders and a code-generation driver) are not part of this model.
