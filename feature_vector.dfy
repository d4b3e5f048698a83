/**
  A feature vector: values keyed by feature name in a fixed order, plus the
  spam / legit / unknown label, with its comma-separated row format.
 */
module FeatureVectors {
  import opened Wrappers
  import opened Text

  /** The label column: `unknown`, `spam` or `legit` for an absent, true or false label. */
  function LabelField(spam: Option<bool>): string {
    match spam
    case None => "unknown"
    case Some(true) => "spam"
    case Some(false) => "legit"
  }

  /** How `FromCSV` reads the last column: anything but `spam` or `legit` is unknown. */
  function LabelOfField(field: string): Option<bool> {
    if field == "spam" then Some(true) else if field == "legit" then Some(false) else None
  }

  /** Each value formatted and followed by a comma. */
  function Cells(values: seq<real>, fmt: real -> string): string
    decreases |values|
  {
    if values == [] then "" else fmt(values[0]) + "," + Cells(values[1..], fmt)
  }

  /** The row `ToCSV` writes. */
  function Row(values: seq<real>, spam: Option<bool>, fmt: real -> string): string {
    Cells(values, fmt) + LabelField(spam)
  }

  lemma {:induction false} CellsAppend(values: seq<real>, v: real, fmt: real -> string)
    ensures Cells(values + [v], fmt) == Cells(values, fmt) + fmt(v) + ","
    decreases |values|
  {
    if values == [] {
      assert values + [v] == [v];
    } else {
      assert (values + [v])[1..] == values[1..] + [v];
      CellsAppend(values[1..], v, fmt);
    }
  }

  /** The value fields of a row, before the label. */
  function Formatted(values: seq<real>, fmt: real -> string): (r: seq<string>)
    ensures |r| == |values|
  {
    seq(|values|, i requires 0 <= i < |values| => fmt(values[i]))
  }

  lemma {:induction false} CellsSplit(values: seq<real>, tail: string, fmt: real -> string)
    requires forall x :: ',' !in fmt(x)
    ensures SplitOn(Cells(values, fmt) + tail, ',') == Formatted(values, fmt) + SplitOn(tail, ',')
    decreases |values|
  {
    if values == [] {
      assert Cells(values, fmt) + tail == tail;
    } else {
      var v := values[0];
      var head := fmt(v);
      assert ',' !in head;
      var rest := Cells(values[1..], fmt) + tail;
      AppendAssociates(head + [','], Cells(values[1..], fmt), tail);
      SplitAtFirst(head, ',', rest);
      CellsSplit(values[1..], tail, fmt);
      FormattedCons(values, fmt);
    }
  }

  lemma FormattedCons(values: seq<real>, fmt: real -> string)
    requires values != []
    ensures Formatted(values, fmt) == [fmt(values[0])] + Formatted(values[1..], fmt)
  {
    var l, r := Formatted(values, fmt), [fmt(values[0])] + Formatted(values[1..], fmt);
    assert forall k :: 0 <= k < |values| ==> l[k] == r[k];
  }

  /**
    `ToCSV` emits exactly one field per value, the formatted value, and then
    exactly one label field.
   */
  lemma RowFields(values: seq<real>, spam: Option<bool>, fmt: real -> string)
    requires forall x :: ',' !in fmt(x)
    ensures SplitOn(Row(values, spam, fmt), ',') == Formatted(values, fmt) + [LabelField(spam)]
  {
    CellsSplit(values, LabelField(spam), fmt);
    SplitWithout(LabelField(spam), ',');
  }

  /**
    The number of leading value fields `FromCSV` stores before it stops: it
    stops at the last field, at a field `parse` rejects (`double.Parse`
    throws) or at a position past the vector's end (`ElementAt` throws).
   */
  function StoredFrom(fields: seq<string>, i: nat, count: nat, parse: string -> Option<real>): (r: nat)
    requires i <= |fields| - 1
    ensures i <= r <= |fields| - 1
    decreases |fields| - i
  {
    if i == |fields| - 1 || i >= count || parse(fields[i]).None? then i
    else StoredFrom(fields, i + 1, count, parse)
  }

  /** The values after the first `stored` fields have overwritten the leading positions. */
  function Overwrite(values: seq<real>, fields: seq<string>, stored: nat, parse: string -> Option<real>): (r: seq<real>)
    ensures |r| == |values|
  {
    seq(|values|, k requires 0 <= k < |values| =>
      if k < stored && k < |fields| && parse(fields[k]).Some? then parse(fields[k]).value else values[k])
  }

  lemma {:induction false} StoredFromAll(fields: seq<string>, i: nat, count: nat, parse: string -> Option<real>)
    requires i <= |fields| - 1
    requires |fields| - 1 <= count
    requires forall k :: i <= k < |fields| - 1 ==> parse(fields[k]).Some?
    ensures StoredFrom(fields, i, count, parse) == |fields| - 1
    decreases |fields| - i
  {
    if i < |fields| - 1 {
      StoredFromAll(fields, i + 1, count, parse);
    }
  }

  /**
    Reading back a written row: when formatting never produces a comma and
    parsing inverts formatting, `FromCSV(ToCSV())` stores every value and the
    label, whatever the vector held before.
   */
  lemma RowRoundTrip(values: seq<real>, spam: Option<bool>, old_values: seq<real>,
                     fmt: real -> string, parse: string -> Option<real>)
    requires |old_values| == |values|
    requires forall x :: ',' !in fmt(x)
    requires forall x :: parse(fmt(x)) == Some(x)
    ensures var fields := SplitOn(Row(values, spam, fmt), ',');
      && StoredFrom(fields, 0, |old_values|, parse) == |fields| - 1
      && Overwrite(old_values, fields, |fields| - 1, parse) == values
      && LabelOfField(fields[|fields| - 1]) == spam
  {
    var fields := SplitOn(Row(values, spam, fmt), ',');
    RowFields(values, spam, fmt);
    assert fields == Formatted(values, fmt) + [LabelField(spam)];
    forall k | 0 <= k < |fields| - 1 ensures parse(fields[k]) == Some(values[k]) {
      var v := values[k];
      assert fields[k] == fmt(v) && parse(fmt(v)) == Some(v);
    }
    StoredFromAll(fields, 0, |old_values|, parse);
    var written := Overwrite(old_values, fields, |fields| - 1, parse);
    assert forall k :: 0 <= k < |values| ==> written[k] == values[k];
  }

  class FeatureVector {
    /** The dictionary's keys in insertion order and their values, position by position. */
    var names: seq<string>
    var values: seq<real>
    var isSpamClass: Option<bool>

    ghost predicate Valid()
      reads this
    {
      |names| == |values| && Distinct(names)
    }

    /** A vector over `features`, all zero, labelled. Duplicate names make `Dictionary.Add` throw. */
    constructor Labelled(features: seq<string>, isSpam: bool)
      requires Distinct(features)
      ensures Valid()
      ensures names == features && isSpamClass == Some(isSpam)
      ensures |values| == |features| && forall i :: 0 <= i < |values| ==> values[i] == 0.0
    {
      isSpamClass := Some(isSpam);
      var ns, vs := [], [];
      for i := 0 to |features|
        invariant ns == features[..i] && |vs| == i
        invariant forall k :: 0 <= k < i ==> vs[k] == 0.0
      {
        ns, vs := ns + [features[i]], vs + [0.0];
      }
      names, values := ns, vs;
    }

    /** A vector over `features`, all zero, with no label. */
    constructor Unlabelled(features: seq<string>)
      requires Distinct(features)
      ensures Valid()
      ensures names == features && isSpamClass == None
      ensures |values| == |features| && forall i :: 0 <= i < |values| ==> values[i] == 0.0
    {
      isSpamClass := None;
      var ns, vs := [], [];
      for i := 0 to |features|
        invariant ns == features[..i] && |vs| == i
        invariant forall k :: 0 <= k < i ==> vs[k] == 0.0
      {
        ns, vs := ns + [features[i]], vs + [0.0];
      }
      names, values := ns, vs;
    }

    function Count(): nat
      reads this
    {
      |names|
    }

    /** `this[feature]` read; `None` where the dictionary throws for a missing key. */
    function ValueOf(feature: string): (r: Option<real>)
      reads this
      requires Valid()
      ensures r.Some? <==> feature in names
      ensures r.Some? ==> exists i :: 0 <= i < |names| && names[i] == feature && r.value == values[i]
    {
      if feature in names then Some(values[IndexOf(names, feature)]) else None
    }

    /** `this[index]` read; `None` where `ElementAt` throws. */
    function ValueAt(index: int): (r: Option<real>)
      reads this
      requires Valid()
      ensures r.Some? <==> 0 <= index < Count()
    {
      if 0 <= index < |values| then Some(values[index]) else None
    }

    /** `this[feature] = value`: updates the cell, or appends a new feature as a dictionary does. */
    method SetByName(feature: string, value: real)
      requires Valid()
      modifies this
      ensures Valid() && isSpamClass == old(isSpamClass)
      ensures feature in old(names) ==>
        names == old(names) && values == old(values)[IndexOf(names, feature) := value]
      ensures feature !in old(names) ==>
        names == old(names) + [feature] && values == old(values) + [value]
    {
      if feature in names {
        values := values[IndexOf(names, feature) := value];
      } else {
        names, values := names + [feature], values + [value];
      }
    }

    /** `this[index] = value`; `ok` is false (nothing changes) where `ElementAt` throws. */
    method SetAt(index: int, value: real) returns (ok: bool)
      requires Valid()
      modifies this
      ensures Valid() && names == old(names) && isSpamClass == old(isSpamClass)
      ensures ok <==> 0 <= index < old(Count())
      ensures values == if ok then old(values)[index := value] else old(values)
    {
      ok := 0 <= index < |names|;
      if ok {
        values := values[index := value];
      }
    }

    /** `ToCSV`: every value followed by a comma, then the label. */
    method ToCSV(fmt: real -> string) returns (csv: string)
      requires Valid()
      ensures csv == Row(values, isSpamClass, fmt)
    {
      csv := "";
      for i := 0 to Count()
        invariant csv == Cells(values[..i], fmt)
      {
        CellsAppend(values[..i], values[i], fmt);
        assert values[..i + 1] == values[..i] + [values[i]];
        csv := csv + fmt(ValueAt(i).value) + ",";
      }
      assert values[..|values|] == values;
      csv := csv + LabelField(isSpamClass);
    }

    /**
      `FromCSV`: the leading fields overwrite the leading positions, the last
      field sets the label. `ok` is false where the source throws; the
      positions written before that point keep their new values.
     */
    method FromCSV(csv: string, parse: string -> Option<real>) returns (ok: bool)
      requires Valid()
      modifies this
      ensures Valid() && names == old(names)
      ensures var fields := SplitOn(csv, ',');
        var stored := StoredFrom(fields, 0, old(Count()), parse);
        && (ok <==> stored == |fields| - 1)
        && values == Overwrite(old(values), fields, stored, parse)
        && isSpamClass == if ok then LabelOfField(fields[|fields| - 1]) else old(isSpamClass)
    {
      var fields := SplitOn(csv, ',');
      ghost var before := values;
      var i := 0;
      while i < |fields| - 1
        invariant 0 <= i <= |fields| - 1
        invariant names == old(names) && |values| == |names| && isSpamClass == old(isSpamClass)
        invariant StoredFrom(fields, 0, |names|, parse) == StoredFrom(fields, i, |names|, parse)
        invariant values == Overwrite(before, fields, i, parse)
      {
        var parsed := parse(fields[i]);
        if parsed.None? {
          return false;
        }
        var written := SetAt(i, parsed.value);
        if !written {
          return false;
        }
        i := i + 1;
      }
      var last := fields[|fields| - 1];
      if last == "spam" {
        isSpamClass := Some(true);
      } else if last == "legit" {
        isSpamClass := Some(false);
      } else {
        isSpamClass := None;
      }
      ok := true;
    }
  }

  /** Reading by name and by position reach the same cell. */
  lemma NameAndPositionAgree(v: FeatureVector, i: int)
    requires v.Valid() && 0 <= i < |v.names|
    ensures v.ValueOf(v.names[i]) == v.ValueAt(i)
  {
    var k := IndexOf(v.names, v.names[i]);
    assert k == i;
  }
}
