/** The per-record logic of the three seed loaders: look each field up under
    its snake_case name and then its PascalCase name, skip the record when a
    required field is falsy, and build the parameter tuple for the insert. */
module Loaders {
  import opened Values
  import opened Sql

  /** `record.get(snake) or record.get(pascal)`: the first when it is truthy,
      the second otherwise, whatever the second is. */
  function Resolve(r: Record, snake: string, pascal: string): (v: Value)
    ensures v == Get(r, snake) || v == Get(r, pascal)
    ensures Truthy(Get(r, snake)) ==> v == Get(r, snake)
    ensures !Truthy(Get(r, snake)) ==> v == Get(r, pascal)
    ensures Truthy(v) <==> Truthy(Get(r, snake)) || Truthy(Get(r, pascal))
  {
    if Truthy(Get(r, snake)) then Get(r, snake) else Get(r, pascal)
  }

  /** The field is present, non-empty, under one of its two names. */
  predicate Has(r: Record, snake: string, pascal: string) {
    Truthy(Get(r, snake)) || Truthy(Get(r, pascal))
  }

  /** The parameter tuple of `insert_customers_from_csv` for one record, or
      `None` when the record is skipped. The id is sent twice: once for the
      existence check, once for the insert. */
  function CustomerParams(r: Record): (p: Option<seq<Value>>)
    ensures p.Some? <==>
      Has(r, "customer_id", "CustomerID") && Has(r, "company_name", "CompanyName") && Has(r, "contact_name", "ContactName")
    ensures p.Some? ==> |p.value| == 4 == Markers(CustomerInsert()) && p.value[0] == p.value[1]
    ensures p.Some? ==> p.value[1..] == [Resolve(r, "customer_id", "CustomerID"),
      Resolve(r, "company_name", "CompanyName"), Resolve(r, "contact_name", "ContactName")]
  {
    CustomerInsertMarkers();
    var customerId := Resolve(r, "customer_id", "CustomerID");
    var companyName := Resolve(r, "company_name", "CompanyName");
    var contactName := Resolve(r, "contact_name", "ContactName");
    if Truthy(customerId) && Truthy(companyName) && Truthy(contactName)
    then Some([customerId, customerId, companyName, contactName])
    else None
  }

  /** The key under which the employee loader numbers the records. */
  const EmployeeIdKey: string := "employee_id"

  /** The five name fields of an employee are all present. */
  predicate HasEmployeeFields(r: Record) {
    && Has(r, "first_name", "FirstName") && Has(r, "last_name", "LastName") && Has(r, "title", "Title")
    && Has(r, "birth_date", "BirthDate") && Has(r, "notes", "Notes")
  }

  /** The five values `insert_employees_from_csv` sends, in the order it sends them. */
  function EmployeeFields(r: Record): seq<Value> {
    [ Resolve(r, "first_name", "FirstName"), Resolve(r, "last_name", "LastName"), Resolve(r, "title", "Title"),
      Resolve(r, "birth_date", "BirthDate"), Resolve(r, "notes", "Notes") ]
  }

  /** The parameter tuple of `insert_employees_from_csv` as the code builds it:
      the five name fields only, although the id is checked too. */
  function EmployeeParamsAsWritten(r: Record): (p: Option<seq<Value>>)
    ensures p.Some? <==> HasEmployeeFields(r) && Truthy(Get(r, EmployeeIdKey))
    ensures p.Some? ==> p.value == EmployeeFields(r) && |p.value| == 5
  {
    var fields := EmployeeFields(r);
    var employeeId := Get(r, EmployeeIdKey);
    if Truthy(fields[0]) && Truthy(fields[1]) && Truthy(fields[2]) && Truthy(fields[3]) && Truthy(fields[4])
      && Truthy(employeeId)
    then Some(fields)
    else None
  }

  /** The tuple as written never fits the employee insert: 5 values for 7
      markers, so the driver refuses every one of these statements. */
  lemma EmployeeParamsMismatchAsWritten(r: Record)
    requires EmployeeParamsAsWritten(r).Some?
    ensures |EmployeeParamsAsWritten(r).value| != Markers(EmployeeInsert())
  {
    EmployeeInsertMarkers();
  }

  /** A complete numbered employee record: the code sends it with a tuple
      two values short. */
  lemma EmployeeMismatchExample()
    ensures var r := map["first_name" := Str("Nancy"), "last_name" := Str("Davolio"),
                         "title" := Str("Sales Representative"), "birth_date" := Str("1948-12-08"),
                         "notes" := Str("BA"), EmployeeIdKey := Int(1)];
      && EmployeeParamsAsWritten(r).Some?
      && |EmployeeParamsAsWritten(r).value| != Markers(EmployeeInsert())
  {
    var r := map["first_name" := Str("Nancy"), "last_name" := Str("Davolio"),
                 "title" := Str("Sales Representative"), "birth_date" := Str("1948-12-08"),
                 "notes" := Str("BA"), EmployeeIdKey := Int(1)];
    assert Get(r, "first_name") == Str("Nancy") && Get(r, "last_name") == Str("Davolio");
    assert Get(r, "title") == Str("Sales Representative") && Get(r, "birth_date") == Str("1948-12-08");
    assert Get(r, "notes") == Str("BA") && Get(r, EmployeeIdKey) == Int(1);
    EmployeeInsertMarkers();
  }

  /** The tuple the employee insert evidently expects: the id for the
      existence check and the id for the insert, then the five fields, as the
      customer loader does. */
  function EmployeeParams(r: Record): (p: Option<seq<Value>>)
    ensures p.Some? <==> HasEmployeeFields(r) && Truthy(Get(r, EmployeeIdKey))
    ensures p.Some? ==> |p.value| == 7 == Markers(EmployeeInsert())
    ensures p.Some? ==> p.value[0] == p.value[1] == Get(r, EmployeeIdKey) && p.value[2..] == EmployeeFields(r)
  {
    EmployeeInsertMarkers();
    match EmployeeParamsAsWritten(r)
    case None => None
    case Some(fields) => Some([Get(r, EmployeeIdKey), Get(r, EmployeeIdKey)] + fields)
  }

  /** Record `i` (from 1) of the employee file, once numbered. */
  function Numbered(records: seq<Record>): (numbered: seq<Record>)
    ensures |numbered| == |records|
  {
    seq(|records|, k requires 0 <= k < |records| => records[k][EmployeeIdKey := Int(k + 1)])
  }

  /** The first loop of `insert_employees_from_csv`: write the position of
      each record, counted from 1, under `employee_id`. */
  method NumberEmployees(records: seq<Record>) returns (numbered: seq<Record>)
    ensures |numbered| == |records|
    ensures forall k | 0 <= k < |records| ::
      Get(numbered[k], EmployeeIdKey) == Int(k + 1) && numbered[k] - {EmployeeIdKey} == records[k] - {EmployeeIdKey}
    ensures numbered == Numbered(records)
  {
    numbered := records;
    for i := 0 to |records|
      invariant |numbered| == |records|
      invariant forall k | 0 <= k < i :: numbered[k] == records[k][EmployeeIdKey := Int(k + 1)]
      invariant forall k | i <= k < |records| :: numbered[k] == records[k]
    {
      numbered := numbered[i := numbered[i][EmployeeIdKey := Int(i + 1)]];
    }
  }

  /** Writing the id leaves the five name fields as they were. */
  lemma EmployeeFieldsIgnoreId(r: Record, v: Value)
    ensures EmployeeFields(r[EmployeeIdKey := v]) == EmployeeFields(r)
    ensures HasEmployeeFields(r[EmployeeIdKey := v]) == HasEmployeeFields(r)
  {
    var r' := r[EmployeeIdKey := v];
    assert Get(r', "first_name") == Get(r, "first_name") && Get(r', "FirstName") == Get(r, "FirstName");
    assert Get(r', "last_name") == Get(r, "last_name") && Get(r', "LastName") == Get(r, "LastName");
    assert Get(r', "title") == Get(r, "title") && Get(r', "Title") == Get(r, "Title");
    assert Get(r', "birth_date") == Get(r, "birth_date") && Get(r', "BirthDate") == Get(r, "BirthDate");
    assert Get(r', "notes") == Get(r, "notes") && Get(r', "Notes") == Get(r, "Notes");
  }

  /** Once numbered, an employee record is skipped only for a missing name
      field: its id is always truthy, and it is the record's position. */
  lemma NumberedIdNeverSkips(records: seq<Record>, k: int)
    requires 0 <= k < |records|
    ensures EmployeeParams(Numbered(records)[k]).Some? <==> HasEmployeeFields(records[k])
    ensures EmployeeParams(Numbered(records)[k]).Some? ==> EmployeeParams(Numbered(records)[k]).value[0] == Int(k + 1)
  {
    var r := records[k][EmployeeIdKey := Int(k + 1)];
    assert Numbered(records)[k] == r;
    assert Get(r, EmployeeIdKey) == Int(k + 1);
    EmployeeFieldsIgnoreId(records[k], Int(k + 1));
  }

  /** The parameter tuple of `insert_orders_from_csv`, or `None` when the
      record is skipped. The order id is required but not sent: the table
      numbers orders itself. */
  function OrderParams(r: Record): (p: Option<seq<Value>>)
    ensures p.Some? <==>
      && Has(r, "order_id", "OrderID") && Has(r, "customer_id", "CustomerID") && Has(r, "employee_id", "EmployeeID")
      && Has(r, "order_date", "OrderDate") && Has(r, "ship_city", "ShipCity")
    ensures p.Some? ==> |p.value| == Markers(OrderInsert())
    ensures p.Some? ==> p.value == [Resolve(r, "customer_id", "CustomerID"), Resolve(r, "employee_id", "EmployeeID"),
      Resolve(r, "order_date", "OrderDate"), Resolve(r, "ship_city", "ShipCity")]
  {
    OrderInsertMarkers();
    var orderId := Resolve(r, "order_id", "OrderID");
    var customerId := Resolve(r, "customer_id", "CustomerID");
    var employeeId := Resolve(r, "employee_id", "EmployeeID");
    var orderDate := Resolve(r, "order_date", "OrderDate");
    var shipCity := Resolve(r, "ship_city", "ShipCity");
    if Truthy(orderId) && Truthy(customerId) && Truthy(employeeId) && Truthy(orderDate) && Truthy(shipCity)
    then Some([customerId, employeeId, orderDate, shipCity])
    else None
  }

  /** The order id decides whether the record is sent, never what is sent:
      any other truthy id gives the same tuple. */
  lemma OrderIdNotSent(r: Record, v: Value)
    requires OrderParams(r).Some? && Truthy(v)
    ensures OrderParams(r["order_id" := v]) == OrderParams(r)
  {
    var r' := r["order_id" := v];
    assert forall key | key != "order_id" :: Get(r', key) == Get(r, key);
  }

  /** The tuples sent for `records`, in order: one per record that `params`
      accepts, none for a skipped one. */
  function ValidTuples(params: Record -> Option<seq<Value>>, records: seq<Record>): (ts: seq<seq<Value>>)
    ensures |ts| <= |records|
    decreases |records|
  {
    if records == [] then []
    else
      var init := ValidTuples(params, records[..|records| - 1]);
      match params(records[|records| - 1])
      case None => init
      case Some(t) => init + [t]
  }

  /** One more record adds its tuple, when it has one, after the earlier ones. */
  lemma ValidTuplesNext(params: Record -> Option<seq<Value>>, records: seq<Record>, i: int)
    requires 0 <= i < |records|
    ensures ValidTuples(params, records[..i + 1]) ==
      ValidTuples(params, records[..i]) + (if params(records[i]).Some? then [params(records[i]).value] else [])
  {
    assert records[..i + 1][..i] == records[..i];
  }

  /** When every record is accepted, one tuple is sent per record, in order. */
  lemma {:induction false} ValidTuplesAllAccepted(params: Record -> Option<seq<Value>>, records: seq<Record>)
    requires forall k | 0 <= k < |records| :: params(records[k]).Some?
    ensures |ValidTuples(params, records)| == |records|
    ensures forall k | 0 <= k < |records| :: ValidTuples(params, records)[k] == params(records[k]).value
  {
    if records != [] {
      var init := records[..|records| - 1];
      ValidTuplesAllAccepted(params, init);
    }
  }

  /** When no record is accepted, nothing is sent. */
  lemma {:induction false} ValidTuplesNoneAccepted(params: Record -> Option<seq<Value>>, records: seq<Record>)
    requires forall k | 0 <= k < |records| :: params(records[k]).None?
    ensures ValidTuples(params, records) == []
  {
    if records != [] {
      ValidTuplesNoneAccepted(params, records[..|records| - 1]);
    }
  }

  /** Every tuple sent is the tuple of some accepted record. */
  lemma {:induction false} ValidTuplesFromRecords(params: Record -> Option<seq<Value>>, records: seq<Record>)
    ensures forall t | t in ValidTuples(params, records) ::
      exists k | 0 <= k < |records| :: params(records[k]) == Some(t)
  {
    if records != [] {
      var init := records[..|records| - 1];
      ValidTuplesFromRecords(params, init);
      forall t | t in ValidTuples(params, records)
        ensures exists k | 0 <= k < |records| :: params(records[k]) == Some(t)
      {
        if t in ValidTuples(params, init) {
          var k :| 0 <= k < |init| && params(init[k]) == Some(t);
          assert records[k] == init[k];
        } else {
          assert params(records[|records| - 1]) == Some(t);
        }
      }
    }
  }
}
