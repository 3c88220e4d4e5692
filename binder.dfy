/** `fix_result_types`: once a statement has a result, record the C type each
    column is fetched as and give every column the application bound with
    `SQL_C_DEFAULT` that type. */
module ResultBinder {
  import opened Common
  import opened Codes
  import opened TypeMapper

  /** One column binding: the C type the application asked for and the result
      column it is linked to (`None` until linked). */
  datatype Bind = Bind(cType: int, field: Option<nat>)

  /** A binding slot as `bzero` leaves it: C type 0, no column. */
  const EmptyBind: Bind := Bind(0, None)

  /** The fetch type of every column, in order. */
  function FetchTypes(fields: seq<Field>): (r: seq<int>)
    ensures |r| == |fields|
  {
    seq(|fields|, i requires 0 <= i < |fields| => UniregToCDatatype(fields[i]))
  }

  /** The bindings widened to `n` slots with zero-filled ones, when fewer. */
  function Grown(binds: seq<Bind>, n: nat): (r: seq<Bind>)
    ensures |r| == Max(|binds|, n)
  {
    if |binds| < n then binds + seq(n - |binds|, _ => EmptyBind) else binds
  }

  /** One slot after defaulting: the column's type replaces `SQL_C_DEFAULT`, any
      other choice stands, and the slot is linked to column `i`. */
  function Link(b: Bind, cType: int, i: nat): Bind
  {
    Bind(if b.cType == SqlCDefault then cType else b.cType, Some(i))
  }

  /** The first `|types|` slots linked and defaulted; the rest as they were. */
  function Defaulted(binds: seq<Bind>, types: seq<int>): (r: seq<Bind>)
    requires |types| <= |binds|
    ensures |r| == |binds|
  {
    seq(|binds|, i requires 0 <= i < |binds| => if i < |types| then Link(binds[i], types[i], i) else binds[i])
  }

  /** After `fix_result_types` there is a slot for every column; no slot of a
      column is left at `SQL_C_DEFAULT`; a slot the application bound with
      `SQL_C_DEFAULT` gets its column's fetch type; any other choice is kept; a slot
      added for the column count is zero-filled, type 0, which is not
      `SQL_C_DEFAULT`, so it stays 0; every column slot is linked to its column and
      slots past the columns are untouched. */
  lemma {:induction false} DefaultingRule(binds: seq<Bind>, fields: seq<Field>)
    ensures var r := Defaulted(Grown(binds, |fields|), FetchTypes(fields));
      && |r| == Max(|binds|, |fields|)
      && (forall i :: 0 <= i < |fields| ==>
            && r[i].field == Some(i)
            && r[i].cType != SqlCDefault
            && (i < |binds| && binds[i].cType == SqlCDefault ==> r[i].cType == UniregToCDatatype(fields[i]))
            && (i < |binds| && binds[i].cType != SqlCDefault ==> r[i].cType == binds[i].cType)
            && (i >= |binds| ==> r[i].cType == 0))
      && (forall i :: |fields| <= i < |r| ==> r[i] == binds[i])
  {
    var r := Defaulted(Grown(binds, |fields|), FetchTypes(fields));
    forall i | 0 <= i < |fields|
      ensures r[i].cType != SqlCDefault
    {
      assert FetchTypes(fields)[i] == UniregToCDatatype(fields[i]);
    }
  }

  /** Fixing the types a second time for the same result changes nothing. */
  lemma {:induction false} DefaultingIdempotent(binds: seq<Bind>, fields: seq<Field>)
    ensures var types := FetchTypes(fields);
      var once := Defaulted(Grown(binds, |fields|), types);
      Defaulted(Grown(once, |fields|), types) == once
  {
    var types := FetchTypes(fields);
    var once := Defaulted(Grown(binds, |fields|), types);
    assert Grown(once, |fields|) == once;
    forall i | 0 <= i < |fields|
      ensures Link(once[i], types[i], i) == once[i]
    {
      assert types[i] == UniregToCDatatype(fields[i]);
    }
  }

  /** A statement's result-type state: the result's columns, the fetch type of
      each (`odbc_types`), the application's column bindings (`None` when it has
      bound none) with their count, and whether a result has been attached. */
  class Statement {
    var fields: seq<Field>
    var odbcTypes: seq<int>
    var bind: Option<seq<Bind>>
    var boundColumns: nat
    var executed: bool

    /** The binding count is the number of binding slots. */
    ghost predicate Valid()
      reads this
    {
      bind.Some? ==> boundColumns == |bind.value|
    }

    constructor (fields: seq<Field>, bind: Option<seq<Bind>>)
      ensures this.fields == fields && this.bind == bind && odbcTypes == [] && !executed
      ensures boundColumns == (if bind.Some? then |bind.value| else 0)
      ensures Valid()
    {
      this.fields := fields;
      this.bind := bind;
      odbcTypes := [];
      boundColumns := if bind.Some? then |bind.value| else 0;
      executed := false;
    }

    /** `fix_result_types`: marks the statement executed, records every column's
        fetch type, and, when the application has bound columns, widens the
        bindings to the column count and defaults and links the column slots. */
    method FixResultTypes()
      requires Valid()
      modifies this
      ensures Valid() && executed && fields == old(fields)
      ensures odbcTypes == FetchTypes(fields)
      ensures bind == (if old(bind).None? then None
                       else Some(Defaulted(Grown(old(bind).value, |fields|), odbcTypes)))
      ensures boundColumns == (if old(bind).None? then old(boundColumns) else Max(old(boundColumns), |fields|))
    {
      executed := true;
      var types: seq<int> := [];
      var i := 0;
      while i < |fields|
        invariant 0 <= i <= |fields| && |types| == i
        invariant forall j :: 0 <= j < i ==> types[j] == UniregToCDatatype(fields[j])
      {
        types := types + [UniregToCDatatype(fields[i])];
        i := i + 1;
      }
      assert types == FetchTypes(fields);
      odbcTypes := types;
      if bind.Some? {
        var b := bind.value;
        if boundColumns < |fields| {
          b := b + seq(|fields| - boundColumns, _ => EmptyBind);
          boundColumns := |fields|;
        }
        ghost var grown := b;
        assert grown == Grown(old(bind).value, |fields|);
        i := 0;
        while i < |fields|
          invariant 0 <= i <= |fields| <= |b| == |grown|
          invariant forall j :: 0 <= j < i ==> b[j] == Link(grown[j], types[j], j)
          invariant forall j :: i <= j < |b| ==> b[j] == grown[j]
        {
          if b[i].cType == SqlCDefault {
            b := b[i := b[i].(cType := types[i])];
          }
          b := b[i := b[i].(field := Some(i))];
          i := i + 1;
        }
        assert b == Defaulted(grown, types);
        bind := Some(b);
      }
    }
  }
}
