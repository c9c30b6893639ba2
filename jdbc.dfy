/**
 * The criteria container JdbcCriteriaBase and the column descriptors its two
 * factories build. A column does not store its value: it reads and writes it
 * through a getter/setter pair, modelled here as a reference to a BoundField.
 */
module Jdbc {
  import opened Wrappers
  import opened Text
  import opened Naming

  /** Java's int. */
  newtype int32 = x: int | -0x8000_0000 <= x < 0x8000_0000

  /** JdbcCriteria.UNLIMITED_RESULTS, whose value the interface (not part of this model) fixes. */
  const UNLIMITED_RESULTS: int32

  /** The default operator of a scalar column (from the JdbcColumnValue interface). */
  const VALUE_DEFAULT_OPERATOR: string

  /** The default operator of a list column (from the JdbcColumnValues interface). */
  const VALUES_DEFAULT_OPERATOR: string

  /** The where-logic a criteria set starts with and falls back to. */
  const DEFAULT_WHERE_LOGIC: string := "AND"

  /** JdbcOrderBy. */
  datatype JdbcOrderBy = NONE | ASC | DESC

  /**
   * What getWhereLogic returns for the stored value `stored`: the stored string
   * unless it is null or trims to nothing, "AND" otherwise.
   */
  function EffectiveWhereLogic(stored: Option<string>): (logic: string)
    ensures stored.None? ==> logic == DEFAULT_WHERE_LOGIC
    ensures stored.Some? && IsBlank(stored.value) ==> logic == DEFAULT_WHERE_LOGIC
    ensures stored.Some? && !IsBlank(stored.value) ==> logic == stored.value
    ensures !IsBlank(logic)
  {
    assert !IsTrimmed(DEFAULT_WHERE_LOGIC[0]);
    if stored.None? then DEFAULT_WHERE_LOGIC
    else
      TrimEmptyIffBlank(stored.value);
      if Trim(stored.value) == [] then DEFAULT_WHERE_LOGIC else stored.value
  }

  /**
   * The entity field a column is bound to: get() of the supplier reads `value`,
   * accept() of the consumer writes it.
   */
  class BoundField<V> {
    var value: V

    constructor (initial: V)
      ensures value == initial
    {
      value := initial;
    }

    /** Supplier.get. */
    method Get() returns (v: V)
      ensures v == value
    {
      v := value;
    }

    /** Consumer.accept. */
    method Set(v: V)
      modifies this
      ensures value == v
    {
      value := v;
    }
  }

  /**
   * A column descriptor: the anonymous JdbcColumnValue<T> that
   * addJdbcColumnValue builds (V is T) and the anonymous JdbcColumnValues<T>
   * that addJdbcColumnValues builds (V is a list of T). Both classes have the
   * same fields and the same method bodies.
   */
  class Column<V> {
    const owner: Criteria
    const columnName: string
    const valueType: string
    const field: BoundField<V>
    const defaultValue: V
    var sortOrder: Option<int>
    var labelText: Option<string>
    var enabled: bool
    var operator: Option<string>
    var orderBy: Option<JdbcOrderBy>

    /** The field initialisers: the default value is read through the getter. */
    constructor (owner: Criteria, columnName: string, valueType: string, field: BoundField<V>,
                 defaultOperator: string)
      ensures this.owner == owner && this.columnName == columnName
      ensures this.valueType == valueType && this.field == field
      ensures sortOrder.None? && labelText == Some(Labelized(columnName)) && enabled
      ensures operator == Some(defaultOperator) && orderBy == Some(NONE)
      ensures defaultValue == field.value
    {
      var initialLabel := Labelize(columnName);
      var initialValue := field.Get();
      this.owner := owner;
      this.columnName := columnName;
      this.valueType := valueType;
      this.field := field;
      sortOrder := None;
      labelText := Some(initialLabel);
      enabled := true;
      operator := Some(defaultOperator);
      defaultValue := initialValue;
      orderBy := Some(NONE);
    }

    method GetValueType() returns (t: string)
      ensures t == valueType
    {
      t := valueType;
    }

    /** The owning criteria set's current table name. */
    method GetTableName() returns (name: Option<string>)
      ensures name == owner.tableName
    {
      name := owner.GetTableName();
    }

    method GetColumnName() returns (name: string)
      ensures name == columnName
    {
      name := columnName;
    }

    method GetSortOrder() returns (order: Option<int>)
      ensures order == sortOrder
    {
      order := sortOrder;
    }

    method SetSortOrder(order: Option<int>)
      modifies this
      ensures sortOrder == order
      ensures labelText == old(labelText) && enabled == old(enabled)
      ensures operator == old(operator) && orderBy == old(orderBy)
    {
      sortOrder := order;
    }

    method GetLabel() returns (l: Option<string>)
      ensures l == labelText
    {
      l := labelText;
    }

    method SetLabel(l: Option<string>)
      modifies this
      ensures labelText == l
      ensures sortOrder == old(sortOrder) && enabled == old(enabled)
      ensures operator == old(operator) && orderBy == old(orderBy)
    {
      labelText := l;
    }

    /** getValue (getValues for a list column): a fresh read through the getter. */
    method GetValue() returns (v: V)
      ensures v == field.value
    {
      v := field.Get();
    }

    /** setValue: a write through the setter; the descriptor itself keeps nothing. */
    method SetValue(v: V)
      modifies field
      ensures field.value == v
    {
      field.Set(v);
    }

    method IsEnabled() returns (e: bool)
      ensures e == enabled
    {
      e := enabled;
    }

    method SetEnabled(e: bool)
      modifies this
      ensures enabled == e
      ensures sortOrder == old(sortOrder) && labelText == old(labelText)
      ensures operator == old(operator) && orderBy == old(orderBy)
    {
      enabled := e;
    }

    method SetOperator(op: Option<string>)
      modifies this
      ensures operator == op
      ensures sortOrder == old(sortOrder) && labelText == old(labelText)
      ensures enabled == old(enabled) && orderBy == old(orderBy)
    {
      operator := op;
    }

    method GetOperator() returns (op: Option<string>)
      ensures op == operator
    {
      op := operator;
    }

    /**
     * resetValue: the value captured at creation is written back through the
     * setter and the order-by is cleared; sort order, labelText, enabled flag and
     * operator are kept.
     */
    method ResetValue()
      modifies this, field
      ensures field.value == defaultValue && orderBy == Some(NONE)
      ensures sortOrder == old(sortOrder) && labelText == old(labelText)
      ensures enabled == old(enabled) && operator == old(operator)
    {
      SetValue(defaultValue);
      orderBy := Some(NONE);
    }

    method GetOrderBy() returns (o: Option<JdbcOrderBy>)
      ensures o == orderBy
    {
      o := orderBy;
    }

    method SetOrderBy(o: Option<JdbcOrderBy>)
      modifies this
      ensures orderBy == o
      ensures sortOrder == old(sortOrder) && labelText == old(labelText)
      ensures enabled == old(enabled) && operator == old(operator)
    {
      orderBy := o;
    }
  }

  /**
   * JdbcCriteriaBase. The columns are kept in registration order; whether the
   * underlying sorted set accepts a new column is decided by JdbcColumn's
   * ordering, which is not part of this model, and reaches the factories as the
   * argument `accepted`.
   */
  class Criteria {
    var tableName: Option<string>
    var maxResults: int32
    var columns: seq<object>
    var whereLogic: Option<string>
    /** How often the subclass hook addColumns() has been invoked. */
    ghost var addColumnsRuns: nat

    /** The default constructor: no table name, unlimited results. */
    constructor ()
      ensures tableName.None? && maxResults == UNLIMITED_RESULTS
      ensures whereLogic == Some(DEFAULT_WHERE_LOGIC)
      ensures addColumnsRuns == 1
    {
      columns := [];
      whereLogic := Some(DEFAULT_WHERE_LOGIC);
      tableName := None;
      maxResults := UNLIMITED_RESULTS;
      addColumnsRuns := 0;
      new;
      AddColumns();
    }

    /**
     * The table-name-only constructor: it delegates to the two-argument
     * constructor, which already runs the hook, and then runs the hook again.
     */
    constructor WithTableName(tableName: Option<string>)
      ensures this.tableName == tableName && maxResults == UNLIMITED_RESULTS
      ensures whereLogic == Some(DEFAULT_WHERE_LOGIC)
      ensures addColumnsRuns == 2
    {
      columns := [];
      whereLogic := Some(DEFAULT_WHERE_LOGIC);
      this.tableName := tableName;
      maxResults := UNLIMITED_RESULTS;
      addColumnsRuns := 0;
      new;
      AddColumns();
      AddColumns();
    }

    /** The two-argument constructor: both arguments stored, hook run once. */
    constructor WithTableNameAndMaxResults(tableName: Option<string>, maxResults: int32)
      ensures this.tableName == tableName && this.maxResults == maxResults
      ensures whereLogic == Some(DEFAULT_WHERE_LOGIC)
      ensures addColumnsRuns == 1
    {
      columns := [];
      whereLogic := Some(DEFAULT_WHERE_LOGIC);
      this.tableName := tableName;
      this.maxResults := maxResults;
      addColumnsRuns := 0;
      new;
      AddColumns();
    }

    /**
     * The abstract hook addColumns(). Its body belongs to the concrete criteria
     * classes, which register their columns here through the factories; the
     * contract promises no more than that: columns may be appended, the
     * settings stay as they are. The body of this model registers nothing.
     */
    method AddColumns()
      modifies this
      ensures addColumnsRuns == old(addColumnsRuns) + 1
      ensures tableName == old(tableName) && maxResults == old(maxResults)
      ensures whereLogic == old(whereLogic) && old(columns) <= columns
    {
      addColumnsRuns := addColumnsRuns + 1;
    }

    method GetTableName() returns (name: Option<string>)
      ensures name == tableName
    {
      name := tableName;
    }

    method SetTableName(name: Option<string>)
      modifies this
      ensures tableName == name
      ensures maxResults == old(maxResults) && whereLogic == old(whereLogic)
      ensures columns == old(columns) && addColumnsRuns == old(addColumnsRuns)
    {
      tableName := name;
    }

    method GetMaxResults() returns (n: int32)
      ensures n == maxResults
    {
      n := maxResults;
    }

    method SetMaxResults(n: int32)
      modifies this
      ensures maxResults == n
      ensures tableName == old(tableName) && whereLogic == old(whereLogic)
      ensures columns == old(columns) && addColumnsRuns == old(addColumnsRuns)
    {
      maxResults := n;
    }

    /** The registered columns. */
    method GetAllColumns() returns (cs: seq<object>)
      ensures cs == columns
    {
      cs := columns;
    }

    /**
     * getWhereLogic: a null or blank stored value is replaced by "AND" before it
     * is returned, so after any read the field holds what was returned.
     */
    method GetWhereLogic() returns (logic: string)
      modifies this
      ensures logic == EffectiveWhereLogic(old(whereLogic))
      ensures whereLogic == Some(logic)
      ensures tableName == old(tableName) && maxResults == old(maxResults)
      ensures columns == old(columns) && addColumnsRuns == old(addColumnsRuns)
    {
      if whereLogic.None? || Trim(whereLogic.value) == [] {
        whereLogic := Some(DEFAULT_WHERE_LOGIC);
      }
      logic := whereLogic.value;
    }

    /** setWhereLogic: any value, null and blank included, is stored as given. */
    method SetWhereLogic(logic: Option<string>)
      modifies this
      ensures whereLogic == logic
      ensures tableName == old(tableName) && maxResults == old(maxResults)
      ensures columns == old(columns) && addColumnsRuns == old(addColumnsRuns)
    {
      whereLogic := logic;
    }

    /**
     * Registers a new column if the set accepts it, then gives it the sort
     * order size() - 1.
     */
    method Register<V>(column: Column<V>, accepted: bool)
      modifies this, column
      ensures columns == if accepted then old(columns) + [column] else old(columns)
      ensures column.sortOrder == Some(|columns| - 1)
      ensures column.labelText == old(column.labelText) && column.enabled == old(column.enabled)
      ensures column.operator == old(column.operator) && column.orderBy == old(column.orderBy)
      ensures tableName == old(tableName) && maxResults == old(maxResults)
      ensures whereLogic == old(whereLogic) && addColumnsRuns == old(addColumnsRuns)
    {
      if accepted {
        columns := columns + [column];
      }
      column.SetSortOrder(Some(|columns| - 1));
    }

    /**
     * addJdbcColumnValue: builds a scalar column bound to `field`, inserts it
     * and sets its sort order to the new size minus one.
     */
    method AddJdbcColumnValue<T>(columnName: string, valueType: string, field: BoundField<T>,
                                 accepted: bool) returns (column: Column<T>)
      modifies this
      ensures fresh(column)
      ensures column.owner == this && column.columnName == columnName
      ensures column.valueType == valueType && column.field == field
      ensures column.labelText == Some(Labelized(columnName)) && column.enabled
      ensures column.operator == Some(VALUE_DEFAULT_OPERATOR) && column.orderBy == Some(NONE)
      ensures column.defaultValue == field.value
      ensures columns == if accepted then old(columns) + [column] else old(columns)
      ensures column.sortOrder == Some(|columns| - 1)
      ensures tableName == old(tableName) && maxResults == old(maxResults)
      ensures whereLogic == old(whereLogic) && addColumnsRuns == old(addColumnsRuns)
    {
      column := new Column(this, columnName, valueType, field, VALUE_DEFAULT_OPERATOR);
      Register(column, accepted);
    }

    /**
     * addJdbcColumnValues: the same for a list column; its default is the list
     * the getter returns at creation.
     */
    method AddJdbcColumnValues<T>(columnName: string, valueType: string, field: BoundField<seq<T>>,
                                  accepted: bool) returns (column: Column<seq<T>>)
      modifies this
      ensures fresh(column)
      ensures column.owner == this && column.columnName == columnName
      ensures column.valueType == valueType && column.field == field
      ensures column.labelText == Some(Labelized(columnName)) && column.enabled
      ensures column.operator == Some(VALUES_DEFAULT_OPERATOR) && column.orderBy == Some(NONE)
      ensures column.defaultValue == field.value
      ensures columns == if accepted then old(columns) + [column] else old(columns)
      ensures column.sortOrder == Some(|columns| - 1)
      ensures tableName == old(tableName) && maxResults == old(maxResults)
      ensures whereLogic == old(whereLogic) && addColumnsRuns == old(addColumnsRuns)
    {
      column := new Column(this, columnName, valueType, field, VALUES_DEFAULT_OPERATOR);
      Register(column, accepted);
    }
  }
}
