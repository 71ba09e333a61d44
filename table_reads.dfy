/**
 * The record-by-record reads of `_extract_indices` and `_extract_holes`:
 * the loops of the source, proved against the table functions.
 */
module TableReads {
  import opened Wrappers
  import opened FieldNames
  import opened BaseStruct
  import opened Dbpf
  import opened Tables

  /** The records read so far, in front of what the rest of the read gives. */
  function Prepend(prefix: seq<Record>, r: Result<(seq<Record>, nat)>): Result<(seq<Record>, nat)>
  {
    match r
    case Ok((rs, end)) => Ok((prefix + rs, end))
    case Err(e) => Err(e)
  }

  lemma {:induction false} PrependStep(parse: Reader, pos: nat, m: nat, prefix: seq<Record>)
    requires m > 0
    ensures parse(pos).Err? ==> Prepend(prefix, ReadRecords(parse, pos, m)) == Err(parse(pos).error)
    ensures parse(pos).Ok? ==>
      Prepend(prefix, ReadRecords(parse, pos, m)) ==
      Prepend(prefix + [parse(pos).value.0], ReadRecords(parse, parse(pos).value.1, m - 1))
  {
    if parse(pos).Ok? {
      var rest := ReadRecords(parse, parse(pos).value.1, m - 1);
      if rest.Ok? {
        assert prefix + ([parse(pos).value.0] + rest.value.0) == prefix + [parse(pos).value.0] + rest.value.0;
      }
    }
  }

  /** `for _ in xrange(count): table.append(cls.parse(fileobj))` from cursor `start`. */
  method ReadRecordsLoop(parse: Reader, start: nat, count: nat) returns (r: Result<(seq<Record>, nat)>)
    ensures r == ReadRecords(parse, start, count)
  {
    var pos: nat := start;
    var table: seq<Record> := [];
    var k: nat := 0;
    assert Prepend([], ReadRecords(parse, start, count)) == ReadRecords(parse, start, count) by {
      if ReadRecords(parse, start, count).Ok? {
        assert [] + ReadRecords(parse, start, count).value.0 == ReadRecords(parse, start, count).value.0;
      }
    }
    while k < count
      invariant k <= count
      invariant Prepend(table, ReadRecords(parse, pos, count - k)) == ReadRecords(parse, start, count)
      decreases count - k
    {
      PrependStep(parse, pos, count - k, table);
      var step := parse(pos);
      if step.Err? {
        return Err(step.error);
      }
      table := table + [step.value.0];
      pos := step.value.1;
      k := k + 1;
    }
    assert table + [] == table;
    return Ok((table, pos));
  }
}
