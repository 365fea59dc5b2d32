/**
 * The dynamic technology list: the rows of the form's field array, each
 * rendered under its own key rather than its position, grown by the Add
 * button and shrunk by each row's Remove button.
 */
module TechList {
  import opened Schema

  /** A row: the key it is rendered under and its form value. */
  datatype Row = Row(id: nat, tech: Tech)

  /** The value the Add button appends: an empty title and zero knowledge. */
  const NewTech := Tech("", 0)

  /** The form values of the rows, in order. */
  function TechsOf(rows: seq<Row>): (ts: seq<Tech>)
    ensures |ts| == |rows|
    ensures forall i :: 0 <= i < |rows| ==> ts[i] == rows[i].tech
  {
    seq(|rows|, i requires 0 <= i < |rows| => rows[i].tech)
  }

  /** No two rows share a key. */
  predicate DistinctIds(rows: seq<Row>) {
    forall i, j :: 0 <= i < j < |rows| ==> rows[i].id != rows[j].id
  }

  /**
   * Removing a row keeps every other row, with its key and value, in the
   * same relative order, and the keys stay distinct; the values submitted
   * lose exactly the removed position.
   */
  lemma RemovalKeepsKeyedRows(rows: seq<Row>, index: nat)
    requires DistinctIds(rows) && index < |rows|
    ensures var after := rows[..index] + rows[index + 1..];
      DistinctIds(after) &&
      (forall r :: r in after <==> r in rows && r.id != rows[index].id) &&
      TechsOf(after) == TechsOf(rows)[..index] + TechsOf(rows)[index + 1..]
  {
    var after := rows[..index] + rows[index + 1..];
    assert forall k :: 0 <= k < |after| ==> after[k] == rows[if k < index then k else k + 1];
    forall r | r in rows && r.id != rows[index].id
      ensures r in after
    {
      var k :| 0 <= k < |rows| && rows[k] == r;
      assert k != index;
      assert after[if k < index then k else k - 1] == r;
    }
  }

  class TechFields {
    var rows: seq<Row>
    /** The key the next appended row receives. */
    var nextId: nat

    ghost predicate Valid()
      reads this
    {
      DistinctIds(rows) && forall i :: 0 <= i < |rows| ==> rows[i].id < nextId
    }

    /** The `techs` value the form submits. */
    function Values(): seq<Tech>
      reads this
    {
      TechsOf(rows)
    }

    /** The field array starts without rows. */
    constructor ()
      ensures Valid() && rows == []
    {
      rows := [];
      nextId := 0;
    }

    /** Appends a row holding `t` at the end, under a key no row has. */
    method Append(t: Tech)
      requires Valid()
      modifies this
      ensures Valid()
      ensures rows == old(rows) + [Row(old(nextId), t)]
      ensures forall i :: 0 <= i < |old(rows)| ==> old(rows)[i].id != old(nextId)
    {
      rows := rows + [Row(nextId, t)];
      nextId := nextId + 1;
    }

    /**
     * The Add button: one more row, at the end, holding an empty title and
     * zero knowledge under a fresh key; the rows before it are unchanged.
     */
    method AddNewTech()
      requires Valid()
      modifies this
      ensures Valid()
      ensures |rows| == |old(rows)| + 1 && rows[..|old(rows)|] == old(rows)
      ensures rows[|rows| - 1].tech == NewTech
      ensures forall i :: 0 <= i < |old(rows)| ==> old(rows)[i].id != rows[|rows| - 1].id
      ensures Values() == old(Values()) + [NewTech]
    {
      Append(NewTech);
      assert rows[..|old(rows)|] == old(rows);
    }

    /**
     * A row's Remove button: that position disappears, every other row keeps
     * its key, value and relative order, and no key is reused.
     */
    method Remove(index: nat)
      requires Valid() && index < |rows|
      modifies this
      ensures Valid()
      ensures rows == old(rows)[..index] + old(rows)[index + 1..]
      ensures nextId == old(nextId)
      ensures forall r :: r in rows <==> r in old(rows) && r.id != old(rows)[index].id
      ensures Values() == old(Values())[..index] + old(Values())[index + 1..]
    {
      RemovalKeepsKeyedRows(rows, index);
      rows := rows[..index] + rows[index + 1..];
    }
  }

  /** The Add button followed by the Remove button of the new row restores the list. */
  method AddThenRemove(f: TechFields)
    requires f.Valid()
    modifies f
    ensures f.Valid() && f.rows == old(f.rows) && f.Values() == old(f.Values())
  {
    f.AddNewTech();
    f.Remove(|f.rows| - 1);
    assert f.rows == old(f.rows);
  }
}
