/**
 * Clients of the criteria model: each method drives a fresh criteria set
 * through one behaviour of the class, using only the
 * contracts of Criteria, Column and BoundField.
 */
module Scenarios {
  import opened Wrappers
  import opened Jdbc

  /**
   * A scalar column bound to a field holding v0: it reads v0, writes v1
   * through to the field, and resetValue brings v0 back and clears the
   * order-by while the other metadata stays as it was set.
   */
  method ScalarValueLifecycle<V>(v0: V, v1: V)
    returns (initial: V, afterSet: V, direct: V, afterReset: V, order: Option<JdbcOrderBy>, enabled: bool)
    ensures initial == v0 && afterSet == v1 && direct == v1
    ensures afterReset == v0 && order == Some(NONE) && !enabled
  {
    var criteria := new Criteria();
    var field := new BoundField(v0);
    var column := criteria.AddJdbcColumnValue("order_total", "Integer", field, true);
    initial := column.GetValue();
    column.SetValue(v1);
    afterSet := column.GetValue();
    direct := field.value;
    column.SetOrderBy(Some(ASC));
    column.SetEnabled(false);
    column.ResetValue();
    afterReset := column.GetValue();
    order := column.GetOrderBy();
    enabled := column.IsEnabled();
  }

  /** The same for a list column: reset restores the list captured at registration. */
  method ListValueLifecycle<T>(xs: seq<T>, ys: seq<T>)
    returns (afterSet: seq<T>, afterReset: seq<T>, order: Option<JdbcOrderBy>)
    ensures afterSet == ys && afterReset == xs && order == Some(NONE)
  {
    var criteria := new Criteria.WithTableName(Some("orders"));
    var field := new BoundField(xs);
    var column := criteria.AddJdbcColumnValues("status", "String", field, true);
    column.SetValue(ys);
    afterSet := column.GetValue();
    column.SetOrderBy(Some(DESC));
    column.ResetValue();
    afterReset := column.GetValue();
    order := column.GetOrderBy();
  }

  /**
   * Two columns registered, both accepted, on a set that holds n columns after
   * construction get sort orders n and n + 1, and a fresh column carries the
   * labelized name.
   */
  method RegistrationOrder(a: int, b: int)
    returns (n: nat, first: Option<int>, second: Option<int>, size: nat, l: Option<string>)
    ensures first == Some(n) && second == Some(n + 1) && size == n + 2
    ensures l == Some(Naming.Labelized("order_total"))
  {
    var criteria := new Criteria.WithTableNameAndMaxResults(None, 10);
    var before := criteria.GetAllColumns();
    n := |before|;
    var fa := new BoundField(a);
    var fb := new BoundField(b);
    var ca := criteria.AddJdbcColumnValue("order_total", "Integer", fa, true);
    var cb := criteria.AddJdbcColumnValue("order_count", "Integer", fb, true);
    first := ca.GetSortOrder();
    second := cb.GetSortOrder();
    var all := criteria.GetAllColumns();
    size := |all|;
    l := ca.GetLabel();
  }

  /**
   * When the set does not accept the second column, that column still gets
   * size() - 1: the same sort order as the first one.
   */
  method RejectedRegistration(a: int, b: int)
    returns (n: nat, first: Option<int>, second: Option<int>, size: nat)
    ensures first == second == Some(n) && size == n + 1
  {
    var criteria := new Criteria();
    var before := criteria.GetAllColumns();
    n := |before|;
    var fa := new BoundField(a);
    var fb := new BoundField(b);
    var ca := criteria.AddJdbcColumnValue("id", "Long", fa, true);
    var cb := criteria.AddJdbcColumnValue("id", "Long", fb, false);
    first := ca.GetSortOrder();
    second := cb.GetSortOrder();
    var all := criteria.GetAllColumns();
    size := |all|;
  }

  /**
   * The where-logic starts as "AND", and after null is stored a read yields
   * "AND" again.
   */
  method WhereLogicNullFallsBack() returns (initial: string, afterNull: string)
    ensures initial == "AND" && afterNull == "AND"
  {
    var criteria := new Criteria();
    initial := criteria.GetWhereLogic();
    criteria.SetWhereLogic(None);
    afterNull := criteria.GetWhereLogic();
  }

  /**
   * Blanks are stored as given, and the next read replaces them by "AND".
   */
  method WhereLogicBlankFallsBack() returns (stored: Option<string>, afterBlank: string, healed: Option<string>)
    ensures stored == Some("   ") && afterBlank == "AND" && healed == Some("AND")
  {
    var criteria := new Criteria();
    criteria.SetWhereLogic(Some("   "));
    stored := criteria.whereLogic;
    afterBlank := criteria.GetWhereLogic();
    healed := criteria.whereLogic;
  }

  /**
   * A non-blank where-logic is returned as stored, and a read leaves it in
   * place for the next read.
   */
  method WhereLogicKeepsValue() returns (first: string, second: string, stored: Option<string>)
    ensures first == "OR" && second == "OR" && stored == Some("OR")
  {
    var criteria := new Criteria();
    var or := "OR";
    assert !Text.IsBlank(or) by {
      assert !Text.IsTrimmed(or[0]);
    }
    criteria.SetWhereLogic(Some(or));
    first := criteria.GetWhereLogic();
    second := criteria.GetWhereLogic();
    stored := criteria.whereLogic;
  }

  /**
   * A column reports the table name its criteria set has now, not the one it
   * had when the column was registered.
   */
  method ColumnTableNameFollowsOwner(v: int) returns (before: Option<string>, after: Option<string>)
    ensures before.None? && after == Some("orders")
  {
    var criteria := new Criteria();
    var field := new BoundField(v);
    var column := criteria.AddJdbcColumnValue("id", "Long", field, true);
    before := column.GetTableName();
    criteria.SetTableName(Some("orders"));
    after := column.GetTableName();
  }

  /**
   * A disabled column stays registered, and its flag survives changes to its
   * other metadata.
   */
  method DisabledColumnStaysRegistered(v: int) returns (enabled: bool, registered: bool)
    ensures !enabled && registered
  {
    var criteria := new Criteria();
    var field := new BoundField(v);
    var column := criteria.AddJdbcColumnValue("id", "Long", field, true);
    column.SetEnabled(false);
    column.SetOperator(Some(">="));
    column.SetLabel(Some("Identifier"));
    column.SetSortOrder(Some(7));
    column.SetOrderBy(Some(ASC));
    enabled := column.IsEnabled();
    var all := criteria.GetAllColumns();
    registered := column in all;
  }
}
