/**
 * ScanOperator: reads a table file line by line, each line a comma-separated
 * list of integers. The file is given as its sequence of lines.
 */
module Scan {
  import opened Wrappers
  import opened Text
  import opened Tuples

  /** One field: trimmed, then parsed as a Java int. */
  function ParseField(field: string): Option<int> {
    ParseInt(Trim(field))
  }

  /** Every field parsed; None when any of them is not a Java int. */
  function ParseFields(fields: seq<string>): (r: Option<seq<int>>)
    ensures r.Some? <==> forall k :: 0 <= k < |fields| ==> ParseField(fields[k]).Some?
    ensures r.Some? ==> |r.value| == |fields|
    ensures r.Some? ==> forall k :: 0 <= k < |fields| ==> r.value[k] == ParseField(fields[k]).value
  {
    if fields == [] then Some([])
    else
      match ParseField(fields[0])
      case None => None
      case Some(v) =>
        match ParseFields(fields[1..])
        case None => None
        case Some(rest) => Some([v] + rest)
  }

  /**
   * parseLineToIntegers: split at ',', trim each field, parse it; None where
   * Integer.parseInt throws NumberFormatException.
   */
  function ParseLine(line: string): (r: Option<seq<int>>)
    ensures r.Some? ==> |r.value| == |Split(line, ',')|
    ensures r.Some? ==> forall k :: 0 <= k < |r.value| ==> IsInt32(r.value[k])
  {
    ParseFields(Split(line, ','))
  }

  lemma FieldRoundTrip(v: int, pad: string)
    requires IsInt32(v) && (pad == "" || pad == " ")
    ensures ParseField(pad + IntToString(v)) == Some(v)
  {
    RenderedUnpadded(v, pad);
    ParseIntOfIntToString(v);
  }

  lemma RenderedUnpadded(v: int, pad: string)
    requires pad == "" || pad == " "
    ensures Trim(pad + IntToString(v)) == IntToString(v)
  {
    var s := IntToString(v);
    assert s[0] > ' ' && s[|s| - 1] > ' ' by {
      assert IsDigit(s[0]) || s[0] == '-';
      assert IsDigit(s[|s| - 1]) || s[|s| - 1] == '-';
    }
    if pad == "" {
      assert pad + s == s;
      TrimUnpadded(s);
    } else {
      TrimAfterSpace(s);
    }
  }

  lemma RenderedFieldsClean(values: seq<int>)
    ensures forall k :: 0 <= k < |values| ==> ',' !in Rendered(values)[k] && Rendered(values)[k] != ""
  {
    forall k | 0 <= k < |values|
      ensures ',' !in Rendered(values)[k]
    {
      IntToStringAvoids(values[k], ',');
    }
  }

  lemma FieldsRoundTrip(values: seq<int>, pad: string, fields: seq<string>)
    requires forall k :: 0 <= k < |values| ==> IsInt32(values[k])
    requires pad == "" || pad == " "
    requires |fields| == |values| >= 1
    requires fields[0] == IntToString(values[0])
    requires forall k :: 1 <= k < |fields| ==> fields[k] == pad + IntToString(values[k])
    ensures ParseFields(fields) == Some(values)
  {
    forall k | 0 <= k < |fields|
      ensures ParseField(fields[k]) == Some(values[k])
    {
      if k == 0 {
        FieldRoundTrip(values[0], "");
        assert "" + fields[0] == fields[0];
      } else {
        FieldRoundTrip(values[k], pad);
      }
    }
    var r := ParseFields(fields);
    assert r.Some?;
    assert r.value == values;
  }

  /**
   * A row written with its values separated by "," or by ", " (the engine's
   * own output format, Tuple.toString) parses back to the same values.
   */
  lemma {:induction false} ParseLineRoundTrip(values: seq<int>, pad: string)
    requires |values| >= 1 && forall k :: 0 <= k < |values| ==> IsInt32(values[k])
    requires pad == "" || pad == " "
    ensures ParseLine(Join(Rendered(values), [','] + pad)) == Some(values)
  {
    var fs := Rendered(values);
    RenderedFieldsClean(values);
    SplitJoined(fs, ',', pad);
    FieldsRoundTrip(values, pad, Split(Join(fs, [','] + pad), ','));
  }

  /** The engine's rendering of a tuple reads back as the same tuple. */
  lemma RenderThenParse(t: Tuple)
    requires |t.values| >= 1 && IsInt32Tuple(t)
    ensures ParseLine(Render(t)) == Some(t.values)
  {
    assert [','] + " " == ", ";
    ParseLineRoundTrip(t.values, " ");
  }

  class ScanOperator {
    const tableName: string
    /** The lines of the table's file. */
    const lines: seq<string>
    /** How many lines the reader has consumed since it was opened. */
    var cursor: nat

    ghost predicate Valid()
      reads this
    {
      cursor <= |lines|
    }

    constructor(tableName: string, lines: seq<string>)
      ensures Valid() && this.tableName == tableName && this.lines == lines && cursor == 0
    {
      this.tableName := tableName;
      this.lines := lines;
      cursor := 0;
    }

    /**
     * getNextTuple: consumes one line and returns its tuple; a line that does
     * not parse is consumed all the same and gives null; at end of file, null.
     */
    method GetNextTuple() returns (t: Option<Tuple>)
      requires Valid()
      modifies this
      ensures Valid()
      ensures old(cursor) < |lines| ==> cursor == old(cursor) + 1
      ensures old(cursor) < |lines| && ParseLine(lines[old(cursor)]).Some? ==>
        t == Some(Tuple(ParseLine(lines[old(cursor)]).value))
      ensures old(cursor) < |lines| && ParseLine(lines[old(cursor)]).None? ==> t == None
      ensures old(cursor) == |lines| ==> t == None && cursor == old(cursor)
    {
      if cursor == |lines| {
        return None;
      }
      var line := lines[cursor];
      cursor := cursor + 1;
      var values := ParseLine(line);
      if values.None? {
        return None;
      }
      t := Some(Tuple(values.value));
    }

    /** reset: reopens the file, so reading starts again at the first line. */
    method Reset()
      requires Valid()
      modifies this
      ensures Valid() && cursor == 0
    {
      cursor := 0;
    }
  }
}
