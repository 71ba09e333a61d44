/**
 * The pass that flags compressed entries of a DBPF archive. Every index
 * entry whose type is the directory type points at a table of directory
 * records; each index entry such a record lists gets `compressed = True`.
 *
 * The entries are the container's index list, identified by position; a
 * pool of positions stands for the shallow copy of that list the pass
 * shrinks while it searches. A pass is chosen on two axes. The pool: as
 * written, `list.remove` goes through the record comparison `__cmp__` and
 * the iteration skips an element after each removal; as intended, the
 * matched entry leaves the pool. The comparison: as written, `equals_index`
 * looks up the directory record's own field names on the index entry; as
 * intended, the index entry's names.
 */
module MarkPass {
  import opened Wrappers
  import opened Bytes
  import opened FieldNames
  import opened BaseStruct
  import opened Versions
  import opened Dbpf
  import opened Tables

  /** The type id of the directory of compressed files. */
  const DirTypeId: int := 0xE86B1EEF

  /** What the search does with the pool once a record matched an entry. */
  datatype Removal =
    | ListRemove  // `indices.remove(index)` as written, while the iteration moves on
    | DropMatch   // the matched entry leaves the pool and the search goes on where it stood

  /** Which names `equals_index` looks up on the index entry. */
  datatype Comparison =
    | NamesAsWritten  // the directory record's own field names, `instance_id2` included
    | NamesCorrected  // the index entry's name for each compared field

  datatype Pass = Search(removal: Removal, comparison: Comparison)

  /** The pass exactly as the source writes it. */
  const AsWritten := Search(ListRemove, NamesAsWritten)

  /**
   * The pass the archive object runs: each matched entry leaves the pool,
   * as the search evidently intends, and the comparison is `equals_index`
   * as written.
   */
  const Opening := Search(DropMatch, NamesAsWritten)

  // ----- Marking -----

  /** A record whose `compressed` flag is kept outside its declared fields, as on every index and directory record. */
  predicate Plain(r: Record)
  {
    Valid(r) && Compressed !in Names(r.layout)
  }

  predicate Plains(recs: seq<Record>)
  {
    forall p :: 0 <= p < |recs| ==> Plain(recs[p])
  }

  /**
   * `index.compressed = True`: `compressed` is not a declared field, so
   * `__setattr__` stores it as a plain attribute.
   */
  function Mark(r: Record): Record
  {
    r.(attrs := r.attrs[Compressed := Bool(true)])
  }

  /** Marking is the attribute assignment of `BaseStruct.__setattr__`. */
  lemma {:induction false} MarkIsSetAttr(r: Record)
    requires Plain(r)
    ensures Mark(r) == SetAttr(r, Compressed, Bool(true))
  {
  }

  /** A mark sets only the flag: the layout, the `_data` and every other attribute are kept. */
  lemma {:induction false} MarkKeeps(r: Record)
    ensures Mark(r).layout == r.layout && Mark(r).dict == r.dict
    ensures GetAttr(Mark(r), Compressed) == Ok(Bool(true))
    ensures forall other :: other != Compressed ==> GetAttr(Mark(r), other) == GetAttr(r, other)
  {
  }

  /** An entry stays plain when marked. */
  lemma {:induction false} MarkPlain(r: Record)
    requires Plain(r)
    ensures Plain(Mark(r))
  {
  }

  /** Marking an entry twice is marking it once. */
  lemma {:induction false} MarkIdempotent(r: Record)
    ensures Mark(Mark(r)) == Mark(r)
  {
    assert Mark(r).attrs[Compressed := Bool(true)] == Mark(r).attrs;
  }

  /** `recs` with the entries at the positions in `s` marked. */
  function MarkSet(recs: seq<Record>, s: set<nat>): seq<Record>
  {
    seq(|recs|, p requires 0 <= p < |recs| => if p in s then Mark(recs[p]) else recs[p])
  }

  /** Each entry of `after` is the entry of `recs` at its position, marked or not. */
  predicate MarkedOnly(recs: seq<Record>, after: seq<Record>)
  {
    |after| == |recs| && forall p :: 0 <= p < |recs| ==> after[p] == recs[p] || after[p] == Mark(recs[p])
  }

  /** Positions `0, 1, ..., n - 1`: the shallow copy `self.indices[:]`. */
  function Positions(n: nat): (ps: seq<nat>)
    ensures |ps| == n && forall i :: 0 <= i < n ==> ps[i] == i
  {
    if n == 0 then [] else Positions(n - 1) + [n - 1]
  }

  predicate InRange(pool: seq<nat>, n: nat)
  {
    forall i :: 0 <= i < |pool| ==> pool[i] < n
  }

  // ----- Comparisons -----

  /**
   * `OrderedDict.__eq__` on two `_data` dictionaries: the same keys in the
   * same order, with equal values.
   */
  predicate DataEq(a: Dict, b: Dict)
  {
    |a| == |b| && forall k :: 0 <= k < |a| ==> a[k].0 == b[k].0 && PyEq(a[k].1, b[k].1)
  }

  /** The comparison a pass makes between a directory record and an index entry. */
  function Compare(cmp: Comparison, d: Record, e: Record): Result<bool>
  {
    match cmp
    case NamesAsWritten => EqualsIndex(d, e)
    case NamesCorrected => EqualsIndexCorrected(d, e)
  }

  /** A directory record's `equals_index`, bound to the record. */
  type Matcher = Record -> Result<bool>

  function EqualsIndexOf(cmp: Comparison, d: Record): Matcher
  {
    e => Compare(cmp, d, e)
  }

  /**
   * `pool.remove(v)` on a list of `BaseStruct` records, as Python 2 runs it:
   * an element is taken for `v` when it is `v` itself or when `__cmp__`
   * answers 0. `__cmp__` returns the truth of `_data == other._data`, which
   * Python reads as 1 on equal data and 0 on different data, so the first
   * element that is `v` or has data DIFFERENT from `v`'s goes.
   */
  function Remove(recs: seq<Record>, pool: seq<nat>, v: nat): (r: Result<seq<nat>>)
    requires InRange(pool, |recs|) && v < |recs|
    ensures r.Err? <==> forall i :: 0 <= i < |pool| ==> !Taken(recs, pool[i], v)
    ensures r.Err? ==> r.error == ValueError("list.remove(x): x not in list")
    ensures r.Ok? ==>
      var k := FirstTaken(recs, pool, v);
      k < |pool| && r.value == pool[..k] + pool[k + 1..]
    ensures r.Ok? ==> |r.value| == |pool| - 1 && InRange(r.value, |recs|)
  {
    if pool == [] then Err(ValueError("list.remove(x): x not in list"))
    else if Taken(recs, pool[0], v) then
      DropInRange(pool, 0, |recs|);
      assert pool[..0] + pool[1..] == pool[1..];
      Ok(pool[1..])
    else
      var rest :- Remove(recs, pool[1..], v);
      DropCons(pool, FirstTaken(recs, pool[1..], v));
      DropInRange(pool, FirstTaken(recs, pool[1..], v) + 1, |recs|);
      Ok([pool[0]] + rest)
  }

  /** Dropping the element after the head of a list is dropping it from the tail. */
  lemma {:induction false} DropCons(pool: seq<nat>, k: nat)
    requires k + 1 < |pool|
    ensures [pool[0]] + (pool[1..][..k] + pool[1..][k + 1..]) == pool[..k + 1] + pool[k + 2..]
  {
    assert pool[..k + 1] == [pool[0]] + pool[1..][..k];
    assert pool[1..][k + 1..] == pool[k + 2..];
  }

  /** Whether `list.remove(v)` takes the element `q`: it is `v`, or `__cmp__` answers 0. */
  predicate Taken(recs: seq<Record>, q: nat, v: nat)
    requires q < |recs| && v < |recs|
  {
    q == v || !DataEq(recs[q].dict, recs[v].dict)
  }

  /** Where in the pool the first element `list.remove(v)` takes stands, or the pool's length. */
  function FirstTaken(recs: seq<Record>, pool: seq<nat>, v: nat): (k: nat)
    requires InRange(pool, |recs|) && v < |recs|
    ensures k <= |pool|
    ensures forall i :: 0 <= i < k ==> !Taken(recs, pool[i], v)
    ensures k < |pool| ==> Taken(recs, pool[k], v)
  {
    if pool == [] then 0
    else if Taken(recs, pool[0], v) then 0
    else 1 + FirstTaken(recs, pool[1..], v)
  }

  // ----- The search for one directory record -----

  /**
   * `for index in indices: if parsed.equals_index(index): index.compressed
   * = True; indices.remove(index)`, from the `j`-th element of the pool on,
   * where `matches` is the bound method `parsed.equals_index`. Gives the
   * entries and what is left of the pool.
   *
   * As written, the removal shifts the rest of the pool left while the
   * iterator moves on, so the element after a match is never looked at.
   * With `DropMatch`, the matched entry itself leaves the pool and the search
   * goes on with the element that took its place.
   */
  function Scan(removal: Removal, matches: Matcher, recs: seq<Record>, pool: seq<nat>, j: nat): Result<(seq<Record>, seq<nat>)>
    requires InRange(pool, |recs|)
    decreases |pool| + 1 - j
  {
    if j >= |pool| then Ok((recs, pool))
    else
      var q := pool[j];
      var hit :- matches(recs[q]);
      if !hit then Scan(removal, matches, recs, pool, j + 1)
      else
        var marked := recs[q := Mark(recs[q])];
        match removal
        case ListRemove =>
          var rest :- Remove(marked, pool, q);
          Scan(removal, matches, marked, rest, j + 1)
        case DropMatch =>
          Scan(removal, matches, marked, pool[..j] + pool[j + 1..], j)
  }

  /**
   * The table of one directory entry: `for _ in xrange(n): parsed =
   * DIR.parse(fileobj)` with the search above after each record, all
   * records sharing one pool.
   */
  function DirTable(pass: Pass, parse: Reader, pos: nat, n: nat, recs: seq<Record>, pool: seq<nat>): Result<seq<Record>>
    requires InRange(pool, |recs|)
    decreases n
  {
    if n == 0 then Ok(recs)
    else
      var (d, next) :- parse(pos);
      var (recs', pool') :- Scan(pass.removal, EqualsIndexOf(pass.comparison, d), recs, pool, 0);
      ScanKeeps(pass.removal, EqualsIndexOf(pass.comparison, d), recs, pool, 0);
      DirTable(pass, parse, next, n - 1, recs', pool')
  }

  /** One record of `DirTable`: its read, its search, and the table after it. */
  lemma {:induction false} DirTableUnfold(pass: Pass, parse: Reader, pos: nat, n: nat, recs: seq<Record>, pool: seq<nat>)
    requires InRange(pool, |recs|) && n > 0
    ensures parse(pos).Err? ==> DirTable(pass, parse, pos, n, recs, pool) == Err(parse(pos).error)
    ensures parse(pos).Ok? ==>
      var sc := Scan(pass.removal, EqualsIndexOf(pass.comparison, parse(pos).value.0), recs, pool, 0);
      (sc.Err? ==> DirTable(pass, parse, pos, n, recs, pool) == Err(sc.error)) &&
      (sc.Ok? ==>
        (MarkedOnly(recs, sc.value.0) && InRange(sc.value.1, |recs|) &&
         DirTable(pass, parse, pos, n, recs, pool) == DirTable(pass, parse, parse(pos).value.1, n - 1, sc.value.0, sc.value.1)))
  {
    if parse(pos).Ok? {
      ScanKeeps(pass.removal, EqualsIndexOf(pass.comparison, parse(pos).value.0), recs, pool, 0);
    }
  }

  /**
   * What an entry says of the directory behind it, in the order the source
   * reads it: nothing when its type is not the directory type; otherwise
   * the directory class of the header's index version, where the table
   * starts and how many records it holds (`size / 16` for 7.0, `size / 20`
   * otherwise; `xrange` of a negative count is empty). Seeking to a
   * negative location fails.
   */
  function DirectoryOf(iv: Result<string>, e: Record): Result<Option<(DirClass, nat, nat)>>
  {
    var typeId :- GetAttr(e, TypeId);
    if !PyEq(typeId, Int(DirTypeId)) then Ok(None)
    else
      var v :- iv;
      var c :- Dir(Text(v));
      var size :- IntAttr(e, Size);
      var records := if v == "7.0" then size / 16 else size / 20;
      var location :- IntAttr(e, Location);
      if location < 0 then Err(SeekError)
      else Ok(Some((c, location, if records < 0 then 0 else records)))
  }

  function DirRecordClass(c: DirClass): RecordClass
  {
    RecordClass(DirLayout(c), false)
  }

  /** `_mark_compressed` from the `t`-th entry on; `iv` is the header's `index_version`. */
  function MarkFrom(pass: Pass, file: seq<byte>, iv: Result<string>, recs: seq<Record>, t: nat): Result<seq<Record>>
    decreases |recs| - t
  {
    if t >= |recs| then Ok(recs)
    else
      var dir :- DirectoryOf(iv, recs[t]);
      match dir
      case None => MarkFrom(pass, file, iv, recs, t + 1)
      case Some((c, location, n)) =>
        var recs' :- DirTable(pass, ClassReader(DirRecordClass(c), file), location, n, recs, Positions(|recs|));
        DirTableKeeps(pass, ClassReader(DirRecordClass(c), file), location, n, recs, Positions(|recs|));
        MarkFrom(pass, file, iv, recs', t + 1)
  }

  // ----- Nothing but marks -----

  lemma {:induction false} MarkedOnlyTrans(a: seq<Record>, b: seq<Record>, c: seq<Record>)
    requires MarkedOnly(a, b) && MarkedOnly(b, c)
    ensures MarkedOnly(a, c)
  {
    forall p | 0 <= p < |a|
      ensures c[p] == a[p] || c[p] == Mark(a[p])
    {
      if b[p] != a[p] {
        MarkIdempotent(a[p]);
      }
    }
  }

  lemma {:induction false} MarkedOnlyPlains(a: seq<Record>, b: seq<Record>)
    requires Plains(a) && MarkedOnly(a, b)
    ensures Plains(b)
  {
    forall p | 0 <= p < |a|
      ensures Plain(b[p])
    {
      MarkPlain(a[p]);
    }
  }

  /** The search changes nothing but marks, and its pool stays a pool of positions. */
  lemma {:induction false} ScanKeeps(removal: Removal, matches: Matcher, recs: seq<Record>, pool: seq<nat>, j: nat)
    requires InRange(pool, |recs|)
    ensures Scan(removal, matches, recs, pool, j).Ok? ==>
      var (recs', pool') := Scan(removal, matches, recs, pool, j).value;
      MarkedOnly(recs, recs') && InRange(pool', |recs|)
    decreases |pool| + 1 - j
  {
    if j < |pool| {
      var q := pool[j];
      var hit := matches(recs[q]);
      if hit.Ok? {
        if !hit.value {
          ScanKeeps(removal, matches, recs, pool, j + 1);
        } else {
          var marked := recs[q := Mark(recs[q])];
          assert MarkedOnly(recs, marked);
          match removal
          case ListRemove =>
            var rest := Remove(marked, pool, q);
            if rest.Ok? {
              ScanKeeps(removal, matches, marked, rest.value, j + 1);
              var r := Scan(removal, matches, marked, rest.value, j + 1);
              if r.Ok? {
                MarkedOnlyTrans(recs, marked, r.value.0);
              }
            }
          case DropMatch =>
            var pool' := pool[..j] + pool[j + 1..];
            assert InRange(pool', |recs|) by {
              forall i | 0 <= i < |pool'| ensures pool'[i] < |recs| {
                if i < j { assert pool'[i] == pool[i]; } else { assert pool'[i] == pool[i + 1]; }
              }
            }
            ScanKeeps(removal, matches, marked, pool', j);
            var r := Scan(removal, matches, marked, pool', j);
            if r.Ok? {
              MarkedOnlyTrans(recs, marked, r.value.0);
            }
        }
      }
    } else {
      assert MarkedOnly(recs, recs);
    }
  }

  /** A directory table changes nothing but marks. */
  lemma {:induction false} DirTableKeeps(pass: Pass, parse: Reader, pos: nat, n: nat, recs: seq<Record>, pool: seq<nat>)
    requires InRange(pool, |recs|)
    ensures DirTable(pass, parse, pos, n, recs, pool).Ok? ==>
      MarkedOnly(recs, DirTable(pass, parse, pos, n, recs, pool).value)
    decreases n
  {
    if n == 0 {
      assert MarkedOnly(recs, recs);
    } else if parse(pos).Ok? {
      var (d, next) := parse(pos).value;
      ScanKeeps(pass.removal, EqualsIndexOf(pass.comparison, d), recs, pool, 0);
      var s := Scan(pass.removal, EqualsIndexOf(pass.comparison, d), recs, pool, 0);
      if s.Ok? {
        var (recs', pool') := s.value;
        DirTableKeeps(pass, parse, next, n - 1, recs', pool');
        var r := DirTable(pass, parse, next, n - 1, recs', pool');
        if r.Ok? {
          MarkedOnlyTrans(recs, recs', r.value);
        }
      }
    }
  }

  // ----- What the search marks when each match leaves the pool -----

  /** A matcher that does not look at the `compressed` flag. */
  ghost predicate Blind(matches: Matcher)
  {
    forall e :: matches(Mark(e)) == matches(e)
  }

  /** Every comparison of the pool elements from `ps` gives an answer. */
  predicate Decided(matches: Matcher, recs: seq<Record>, ps: seq<nat>)
    requires InRange(ps, |recs|)
  {
    forall i :: 0 <= i < |ps| ==> matches(recs[ps[i]]).Ok?
  }

  /** The positions in `ps` whose entry matches. */
  function Hits(matches: Matcher, recs: seq<Record>, ps: seq<nat>): set<nat>
  {
    set p | p in ps && p < |recs| && matches(recs[p]) == Ok(true)
  }

  /** The elements of `ps` whose entry does not match, in order. */
  function Misses(matches: Matcher, recs: seq<Record>, ps: seq<nat>): (r: seq<nat>)
    requires InRange(ps, |recs|)
    ensures InRange(r, |recs|)
  {
    if ps == [] then []
    else (if matches(recs[ps[0]]) == Ok(true) then [] else [ps[0]]) + Misses(matches, recs, ps[1..])
  }

  lemma {:induction false} MissesMember(matches: Matcher, recs: seq<Record>, ps: seq<nat>, p: nat)
    requires InRange(ps, |recs|)
    ensures p in Misses(matches, recs, ps) <==> p in ps && matches(recs[p]) != Ok(true)
  {
    if ps != [] {
      MissesMember(matches, recs, ps[1..], p);
      assert ps == [ps[0]] + ps[1..];
    }
  }

  /** A blind matcher answers the same on entries that differ only in marks. */
  lemma {:induction false} BlindAgree(matches: Matcher, recs: seq<Record>, recs': seq<Record>, ps: seq<nat>)
    requires Blind(matches) && MarkedOnly(recs, recs') && InRange(ps, |recs|)
    ensures Hits(matches, recs', ps) == Hits(matches, recs, ps)
    ensures Misses(matches, recs', ps) == Misses(matches, recs, ps)
    ensures Decided(matches, recs', ps) == Decided(matches, recs, ps)
  {
    assert forall p :: 0 <= p < |recs| ==> matches(recs'[p]) == matches(recs[p]);
    if ps != [] {
      BlindAgree(matches, recs, recs', ps[1..]);
    }
  }

  /** Marking one entry and then a set is marking the set with it. */
  lemma {:induction false} MarkSetStep(recs: seq<Record>, q: nat, s: set<nat>)
    requires q < |recs|
    ensures MarkSet(recs[q := Mark(recs[q])], s) == MarkSet(recs, {q} + s)
  {
    MarkIdempotent(recs[q]);
  }

  /** Marking two sets one after the other is marking their union. */
  lemma {:induction false} MarkSetUnion(recs: seq<Record>, a: set<nat>, b: set<nat>)
    ensures MarkSet(MarkSet(recs, a), b) == MarkSet(recs, a + b)
  {
    forall p | 0 <= p < |recs|
      ensures MarkSet(MarkSet(recs, a), b)[p] == MarkSet(recs, a + b)[p]
    {
      MarkIdempotent(recs[p]);
    }
  }

  lemma {:induction false} MarkSetMarkedOnly(recs: seq<Record>, s: set<nat>)
    ensures MarkedOnly(recs, MarkSet(recs, s))
  {
  }

  /**
   * The search that drops each match fails exactly when a comparison fails; otherwise
   * it marks every pool entry from `j` on that the record matches, and
   * leaves in the pool the others.
   */
  lemma {:induction false} ScanDropMeaning(matches: Matcher, recs: seq<Record>, pool: seq<nat>, j: nat)
    requires Blind(matches) && InRange(pool, |recs|) && j <= |pool|
    ensures Scan(DropMatch, matches, recs, pool, j).Ok? <==> Decided(matches, recs, pool[j..])
    ensures Scan(DropMatch, matches, recs, pool, j).Ok? ==>
      Scan(DropMatch, matches, recs, pool, j).value.0 == MarkSet(recs, Hits(matches, recs, pool[j..])) &&
      Scan(DropMatch, matches, recs, pool, j).value.1 == pool[..j] + Misses(matches, recs, pool[j..])
    decreases |pool| - j
  {
    if j == |pool| {
      assert pool[..j] == pool && pool[j..] == [];
      assert MarkSet(recs, {}) == recs;
    } else {
      var hit := matches(recs[pool[j]]);
      if hit.Err? {
        assert !matches(recs[pool[j..][0]]).Ok?;
      } else if hit.value {
        ScanDropHit(matches, recs, pool, j);
      } else {
        ScanDropMiss(matches, recs, pool, j);
      }
    }
  }

  /** Its step on an entry that does not match. */
  lemma {:induction false} ScanDropMiss(matches: Matcher, recs: seq<Record>, pool: seq<nat>, j: nat)
    requires Blind(matches) && InRange(pool, |recs|) && j < |pool|
    requires matches(recs[pool[j]]) == Ok(false)
    ensures Scan(DropMatch, matches, recs, pool, j).Ok? <==> Decided(matches, recs, pool[j..])
    ensures Scan(DropMatch, matches, recs, pool, j).Ok? ==>
      Scan(DropMatch, matches, recs, pool, j).value.0 == MarkSet(recs, Hits(matches, recs, pool[j..])) &&
      Scan(DropMatch, matches, recs, pool, j).value.1 == pool[..j] + Misses(matches, recs, pool[j..])
    decreases |pool| - j, 0
  {
    var q := pool[j];
    assert pool[j..] == [q] + pool[j + 1..];
    ScanDropMeaning(matches, recs, pool, j + 1);
    assert pool[j..][1..] == pool[j + 1..];
    assert Misses(matches, recs, pool[j..]) == [q] + Misses(matches, recs, pool[j + 1..]);
    assert pool[..j + 1] == pool[..j] + [q];
    assert Hits(matches, recs, pool[j..]) == Hits(matches, recs, pool[j + 1..]);
  }

  lemma {:induction false} DropInRange(pool: seq<nat>, j: nat, n: nat)
    requires InRange(pool, n) && j < |pool|
    ensures InRange(pool[..j] + pool[j + 1..], n)
  {
    var pool' := pool[..j] + pool[j + 1..];
    forall i | 0 <= i < |pool'|
      ensures pool'[i] < n
    {
      if i < j { assert pool'[i] == pool[i]; } else { assert pool'[i] == pool[i + 1]; }
    }
  }

  /** The pieces of the search after a match at `pool[j]`. */
  lemma {:induction false} HitPieces(matches: Matcher, recs: seq<Record>, pool: seq<nat>, j: nat)
    requires InRange(pool, |recs|) && j < |pool| && matches(recs[pool[j]]) == Ok(true)
    ensures Decided(matches, recs, pool[j..]) == Decided(matches, recs, pool[j + 1..])
    ensures Misses(matches, recs, pool[j..]) == Misses(matches, recs, pool[j + 1..])
    ensures Hits(matches, recs, pool[j..]) == {pool[j]} + Hits(matches, recs, pool[j + 1..])
  {
    assert pool[j..] == [pool[j]] + pool[j + 1..];
    assert pool[j..][1..] == pool[j + 1..];
  }

  /** Its step on a match. */
  lemma {:induction false} ScanDropHit(matches: Matcher, recs: seq<Record>, pool: seq<nat>, j: nat)
    requires Blind(matches) && InRange(pool, |recs|) && j < |pool|
    requires matches(recs[pool[j]]) == Ok(true)
    ensures Scan(DropMatch, matches, recs, pool, j).Ok? <==> Decided(matches, recs, pool[j..])
    ensures Scan(DropMatch, matches, recs, pool, j).Ok? ==>
      Scan(DropMatch, matches, recs, pool, j).value.0 == MarkSet(recs, Hits(matches, recs, pool[j..])) &&
      Scan(DropMatch, matches, recs, pool, j).value.1 == pool[..j] + Misses(matches, recs, pool[j..])
    decreases |pool| - j, 0
  {
    var q := pool[j];
    var marked := recs[q := Mark(recs[q])];
    var pool' := pool[..j] + pool[j + 1..];
    DropInRange(pool, j, |recs|);
    assert pool'[j..] == pool[j + 1..] && pool'[..j] == pool[..j];
    assert Scan(DropMatch, matches, recs, pool, j) == Scan(DropMatch, matches, marked, pool', j);
    ScanDropMeaning(matches, marked, pool', j);
    assert MarkedOnly(recs, marked);
    BlindAgree(matches, recs, marked, pool[j + 1..]);
    HitPieces(matches, recs, pool, j);
    MarkSetStep(recs, q, Hits(matches, recs, pool[j + 1..]));
  }

  // ----- The search as written against the corrected one -----

  /**
   * As written, two index entries with different data and a directory that
   * lists the second and then the first: the match on the second removes
   * the FIRST entry from the pool (its data differ), so the next record,
   * which lists the first entry, finds only the second one. The first entry
   * keeps `compressed = False` although the directory lists it.
   */
  lemma {:induction false} AsWrittenMissesListed(recs: seq<Record>, listsSecond: Matcher, listsFirst: Matcher)
    requires |recs| == 2 && !DataEq(recs[0].dict, recs[1].dict)
    requires GetAttr(recs[0], Compressed) == Ok(Bool(false))
    requires listsSecond(recs[0]) == Ok(false) && listsSecond(recs[1]) == Ok(true)
    requires Blind(listsFirst) && listsFirst(recs[0]) == Ok(true) && listsFirst(recs[1]) == Ok(false)
    ensures Scan(ListRemove, listsSecond, recs, Positions(2), 0) == Ok((recs[1 := Mark(recs[1])], [1]))
    ensures Scan(ListRemove, listsFirst, recs[1 := Mark(recs[1])], [1], 0) == Ok((recs[1 := Mark(recs[1])], [1]))
    ensures GetAttr(recs[1 := Mark(recs[1])][0], Compressed) == Ok(Bool(false))
  {
    var marked := recs[1 := Mark(recs[1])];
    assert Positions(2) == [0, 1];
    assert marked[0].dict == recs[0].dict && marked[1].dict == recs[1].dict;
    assert Remove(marked, [0, 1], 1) == Ok([1]);
    assert listsFirst(marked[1]) == listsFirst(recs[1]);
  }

  /** Dropping exactly the match, the same input has both entries marked. */
  lemma {:induction false} CorrectedMarksListed(recs: seq<Record>, listsSecond: Matcher, listsFirst: Matcher)
    requires |recs| == 2
    requires listsSecond(recs[0]) == Ok(false) && listsSecond(recs[1]) == Ok(true)
    requires listsFirst(recs[0]) == Ok(true)
    ensures Scan(DropMatch, listsSecond, recs, Positions(2), 0) == Ok((recs[1 := Mark(recs[1])], [0]))
    ensures Scan(DropMatch, listsFirst, recs[1 := Mark(recs[1])], [0], 0) == Ok(([Mark(recs[0]), Mark(recs[1])], []))
  {
    var marked := recs[1 := Mark(recs[1])];
    assert Positions(2) == [0, 1];
    assert [0, 1][..1] + [0, 1][2..] == [0];
    assert marked[0 := Mark(marked[0])] == [Mark(recs[0]), Mark(recs[1])];
    assert [0][..0] + [0][1..] == [];
  }

  // ----- What the pass marks when each match leaves the pool -----

  /** No compared field of `d` is the `compressed` flag, so its comparison cannot see marks. */
  lemma {:induction false} CompareBlind(cmp: Comparison, d: Record)
    requires Compressed !in Names(d.layout)
    ensures Blind(EqualsIndexOf(cmp, d))
  {
    ComparedUnflagged(d);
    forall e
      ensures Compare(cmp, d, Mark(e)) == Compare(cmp, d, e)
    {
      CompareMark(cmp, d, e);
    }
  }

  lemma {:induction false} ComparedUnflagged(d: Record)
    requires Compressed !in Names(d.layout)
    ensures forall k :: 0 <= k < |ComparedNames(d)| ==>
      ComparedNames(d)[k] != Compressed && IndexNames(ComparedNames(d))[k] != Compressed
  {
    var names := ComparedNames(d);
    forall k | 0 <= k < |names|
      ensures names[k] != Compressed && IndexNames(names)[k] != Compressed
    {
      assert names[k] == Names(d.layout)[k];
    }
  }

  lemma {:induction false} CompareMark(cmp: Comparison, d: Record, e: Record)
    requires forall k :: 0 <= k < |ComparedNames(d)| ==>
      ComparedNames(d)[k] != Compressed && IndexNames(ComparedNames(d))[k] != Compressed
    ensures Compare(cmp, d, Mark(e)) == Compare(cmp, d, e)
  {
    MarkKeeps(e);
    var names := ComparedNames(d);
    if cmp == NamesAsWritten {
      AllEqualFrame(d, e, Mark(e), names, names);
    } else {
      AllEqualFrame(d, e, Mark(e), names, IndexNames(names));
    }
  }

  /** The entries some of the matchers `ms` match, among the positions in `pool`. */
  ghost function Listed(ms: seq<Matcher>, recs: seq<Record>, pool: seq<nat>): set<nat>
  {
    set p | p in pool && p < |recs| && exists i :: 0 <= i < |ms| && ms[i](recs[p]) == Ok(true)
  }

  ghost predicate AllBlind(ms: seq<Matcher>)
  {
    forall i :: 0 <= i < |ms| ==> Blind(ms[i])
  }

  /** The `equals_index` of each record, comparing with `cmp`. */
  function MatchersOf(cmp: Comparison, ds: seq<Record>): (ms: seq<Matcher>)
    ensures |ms| == |ds| && forall i :: 0 <= i < |ds| ==> ms[i] == EqualsIndexOf(cmp, ds[i])
  {
    if ds == [] then [] else [EqualsIndexOf(cmp, ds[0])] + MatchersOf(cmp, ds[1..])
  }

  /** Records none of whose fields is the `compressed` flag. */
  predicate Unflagged(ds: seq<Record>)
  {
    forall i :: 0 <= i < |ds| ==> Compressed !in Names(ds[i].layout)
  }

  lemma {:induction false} UnflaggedBlind(cmp: Comparison, ds: seq<Record>)
    requires Unflagged(ds)
    ensures AllBlind(MatchersOf(cmp, ds))
  {
    forall i | 0 <= i < |ds|
      ensures Blind(MatchersOf(cmp, ds)[i])
    {
      CompareBlind(cmp, ds[i]);
    }
  }

  lemma {:induction false} ListedBlind(ms: seq<Matcher>, recs: seq<Record>, recs': seq<Record>, pool: seq<nat>)
    requires AllBlind(ms) && MarkedOnly(recs, recs')
    ensures Listed(ms, recs', pool) == Listed(ms, recs, pool)
  {
    forall p, i | 0 <= p < |recs| && 0 <= i < |ms|
      ensures ms[i](recs'[p]) == ms[i](recs[p])
    {
      assert Blind(ms[i]);
    }
  }

  /**
   * The first record of a table marks its matches in the pool, the rest
   * of the records the matches among what is left: together, the entries
   * any record matches.
   */
  lemma {:induction false} ListedCons(m: Matcher, ms: seq<Matcher>, recs: seq<Record>, pool: seq<nat>)
    requires InRange(pool, |recs|)
    ensures Hits(m, recs, pool) + Listed(ms, recs, Misses(m, recs, pool)) == Listed([m] + ms, recs, pool)
  {
    forall p: nat
      ensures p in Hits(m, recs, pool) + Listed(ms, recs, Misses(m, recs, pool)) <==> p in Listed([m] + ms, recs, pool)
    {
      MissesMember(m, recs, pool, p);
      if p in Hits(m, recs, pool) {
        assert ([m] + ms)[0](recs[p]) == Ok(true);
      }
      if p in Listed([m] + ms, recs, pool) && p !in Hits(m, recs, pool) {
        var i :| 0 <= i < |ms| + 1 && ([m] + ms)[i](recs[p]) == Ok(true);
        assert i > 0 && ms[i - 1](recs[p]) == Ok(true);
      }
      if p in Listed(ms, recs, Misses(m, recs, pool)) {
        var i :| 0 <= i < |ms| && ms[i](recs[p]) == Ok(true);
        assert ([m] + ms)[i + 1](recs[p]) == Ok(true);
      }
    }
  }

  /** What a reader yields has no field named `compressed`. */
  ghost predicate UnflaggedReader(parse: Reader)
  {
    forall p :: parse(p).Ok? ==> Compressed !in Names(parse(p).value.0.layout)
  }

  /** One record's marks followed by the marks of the rest of the table, with the pool it leaves. */
  lemma {:induction false} ListedStep(m: Matcher, ms: seq<Matcher>, recs: seq<Record>, pool: seq<nat>)
    requires AllBlind(ms) && InRange(pool, |recs|)
    ensures var recs1 := MarkSet(recs, Hits(m, recs, pool));
      MarkSet(recs1, Listed(ms, recs1, Misses(m, recs, pool))) == MarkSet(recs, Listed([m] + ms, recs, pool))
  {
    var h := Hits(m, recs, pool);
    var recs1 := MarkSet(recs, h);
    MarkSetMarkedOnly(recs, h);
    ListedBlind(ms, recs, recs1, Misses(m, recs, pool));
    MarkSetUnion(recs, h, Listed(ms, recs, Misses(m, recs, pool)));
    ListedCons(m, ms, recs, pool);
  }

  /** `ListedStep` for the matchers of the records a reader yields. */
  lemma {:induction false} ListedStepRead(cmp: Comparison, m: Matcher, parse: Reader, pos: nat, n: nat, recs: seq<Record>, pool: seq<nat>)
    requires UnflaggedReader(parse) && ReadRecords(parse, pos, n).Ok? && InRange(pool, |recs|)
    ensures var ms := MatchersOf(cmp, ReadRecords(parse, pos, n).value.0);
      var recs1 := MarkSet(recs, Hits(m, recs, pool));
      MarkSet(recs1, Listed(ms, recs1, Misses(m, recs, pool))) == MarkSet(recs, Listed([m] + ms, recs, pool))
  {
    ReadRecordsBlind(cmp, parse, pos, n);
    ListedStep(m, MatchersOf(cmp, ReadRecords(parse, pos, n).value.0), recs, pool);
  }

  /** A directory table that succeeds has read all its records. */
  lemma {:induction false} DirTableReads(pass: Pass, parse: Reader, pos: nat, n: nat, recs: seq<Record>, pool: seq<nat>)
    requires InRange(pool, |recs|)
    ensures DirTable(pass, parse, pos, n, recs, pool).Ok? ==> ReadRecords(parse, pos, n).Ok?
    decreases n
  {
    if n > 0 && parse(pos).Ok? {
      var (d, next) := parse(pos).value;
      var s := Scan(pass.removal, EqualsIndexOf(pass.comparison, d), recs, pool, 0);
      if s.Ok? {
        ScanKeeps(pass.removal, EqualsIndexOf(pass.comparison, d), recs, pool, 0);
        DirTableReads(pass, parse, next, n - 1, s.value.0, s.value.1);
      }
    }
  }

  lemma {:induction false} ReadRecordsUnflagged(parse: Reader, pos: nat, n: nat)
    requires UnflaggedReader(parse)
    ensures ReadRecords(parse, pos, n).Ok? ==> Unflagged(ReadRecords(parse, pos, n).value.0)
    decreases n
  {
    if n > 0 && parse(pos).Ok? {
      var (d, next) := parse(pos).value;
      ReadRecordsUnflagged(parse, next, n - 1);
      var tail := ReadRecords(parse, next, n - 1);
      if tail.Ok? {
        ReadRecordsHead(parse, pos, n - 1, d, next);
        UnflaggedCons(d, tail.value.0);
      }
    }
  }

  lemma {:induction false} UnflaggedCons(d: Record, ds: seq<Record>)
    requires Compressed !in Names(d.layout) && Unflagged(ds)
    ensures Unflagged([d] + ds)
  {
    assert forall i :: 1 <= i < |ds| + 1 ==> ([d] + ds)[i] == ds[i - 1];
  }

  /** The matchers of the records a reader yields ignore the flag. */
  lemma {:induction false} ReadRecordsBlind(cmp: Comparison, parse: Reader, pos: nat, n: nat)
    requires UnflaggedReader(parse)
    ensures ReadRecords(parse, pos, n).Ok? ==> AllBlind(MatchersOf(cmp, ReadRecords(parse, pos, n).value.0))
  {
    ReadRecordsUnflagged(parse, pos, n);
    if ReadRecords(parse, pos, n).Ok? {
      UnflaggedBlind(cmp, ReadRecords(parse, pos, n).value.0);
    }
  }

  /**
   * Dropping each match, the table of one directory entry reads its records and marks
   * exactly the pool entries some record of the table matches.
   */
  lemma {:induction false} DirTableDropMeaning(cmp: Comparison, parse: Reader, pos: nat, n: nat, recs: seq<Record>, pool: seq<nat>)
    requires UnflaggedReader(parse) && InRange(pool, |recs|)
    ensures DirTable(Search(DropMatch, cmp), parse, pos, n, recs, pool).Ok? ==> ReadRecords(parse, pos, n).Ok?
    ensures DirTable(Search(DropMatch, cmp), parse, pos, n, recs, pool).Ok? ==>
      DirTable(Search(DropMatch, cmp), parse, pos, n, recs, pool).value ==
        MarkSet(recs, Listed(MatchersOf(cmp, ReadRecords(parse, pos, n).value.0), recs, pool))
    decreases n, 1
  {
    DirTableReads(Search(DropMatch, cmp), parse, pos, n, recs, pool);
    if n == 0 {
      assert MarkSet(recs, {}) == recs;
      assert Listed([], recs, pool) == {};
    } else if parse(pos).Ok? {
      var (d, next) := parse(pos).value;
      var m := EqualsIndexOf(cmp, d);
      CompareBlind(cmp, d);
      ScanDropMeaning(m, recs, pool, 0);
      assert pool[..0] == [] && pool[0..] == pool;
      var s := Scan(DropMatch, m, recs, pool, 0);
      if s.Ok? {
        assert [] + Misses(m, recs, pool) == Misses(m, recs, pool);
        DirTableStep(cmp, parse, pos, n, recs, pool, d, next, s.value.0, s.value.1);
      }
    }
  }

  /** The step of such a table after its first record's search. */
  lemma {:induction false} DirTableStep(cmp: Comparison, parse: Reader, pos: nat, n: nat, recs: seq<Record>, pool: seq<nat>,
                                        d: Record, next: nat, recs1: seq<Record>, pool1: seq<nat>)
    requires UnflaggedReader(parse) && InRange(pool, |recs|) && n > 0 && parse(pos) == Ok((d, next))
    requires Compressed !in Names(d.layout)
    requires Scan(DropMatch, EqualsIndexOf(cmp, d), recs, pool, 0) == Ok((recs1, pool1))
    requires recs1 == MarkSet(recs, Hits(EqualsIndexOf(cmp, d), recs, pool))
    requires pool1 == Misses(EqualsIndexOf(cmp, d), recs, pool)
    ensures DirTable(Search(DropMatch, cmp), parse, pos, n, recs, pool).Ok? ==>
      ReadRecords(parse, pos, n).Ok? &&
      DirTable(Search(DropMatch, cmp), parse, pos, n, recs, pool).value ==
        MarkSet(recs, Listed(MatchersOf(cmp, ReadRecords(parse, pos, n).value.0), recs, pool))
    decreases n, 0
  {
    var m := EqualsIndexOf(cmp, d);
    assert |recs1| == |recs|;
    DirTableDropMeaning(cmp, parse, next, n - 1, recs1, pool1);
    var r := DirTable(Search(DropMatch, cmp), parse, next, n - 1, recs1, pool1);
    assert DirTable(Search(DropMatch, cmp), parse, pos, n, recs, pool) == r;
    if r.Ok? {
      var rest := ReadRecords(parse, next, n - 1).value;
      var ms := MatchersOf(cmp, rest.0);
      assert r.value == MarkSet(recs1, Listed(ms, recs1, pool1));
      assert ReadRecords(parse, pos, n).value.0 == [d] + rest.0;
      assert MatchersOf(cmp, [d] + rest.0) == [m] + ms;
      ListedStepRead(cmp, m, parse, next, n - 1, recs, pool);
    }
  }

  // ----- The whole pass -----

  /** A directory record class reads records without a `compressed` field. */
  lemma {:induction false} DirReaderUnflagged(c: DirClass, file: seq<byte>)
    ensures UnflaggedReader(ClassReader(DirRecordClass(c), file))
  {
    DirShape(c);
    forall p: nat | ClassReader(DirRecordClass(c), file)(p).Ok?
      ensures Compressed !in Names(ClassReader(DirRecordClass(c), file)(p).value.0.layout)
    {
      assert ClassReader(DirRecordClass(c), file)(p) == ParseAs(DirRecordClass(c), file, p);
    }
  }

  /** What an entry says of its directory does not depend on its mark. */
  lemma {:induction false} DirectoryOfBlind(iv: Result<string>, e: Record)
    ensures DirectoryOf(iv, Mark(e)) == DirectoryOf(iv, e)
  {
    MarkKeeps(e);
    DirectoryOfFields(iv, Mark(e), e);
  }

  /** An entry's directory depends only on its `type_id`, `size` and `location`. */
  lemma {:induction false} DirectoryOfFields(iv: Result<string>, e1: Record, e2: Record)
    requires GetAttr(e1, TypeId) == GetAttr(e2, TypeId)
    requires GetAttr(e1, Size) == GetAttr(e2, Size) && GetAttr(e1, Location) == GetAttr(e2, Location)
    ensures DirectoryOf(iv, e1) == DirectoryOf(iv, e2)
  {
    var t := GetAttr(e1, TypeId);
    if t.Ok? && PyEq(t.value, Int(DirTypeId)) && iv.Ok? {
      var size, location := IntAttr(e1, Size), IntAttr(e1, Location);
      assert IntAttr(e2, Size) == size && IntAttr(e2, Location) == location;
    }
  }

  /**
   * The records of every directory table the entries from the `t`-th on
   * point at, table after table, failing where the pass would fail
   * before any comparison.
   */
  function Directories(file: seq<byte>, iv: Result<string>, recs: seq<Record>, t: nat): Result<seq<Record>>
    decreases |recs| - t
  {
    if t >= |recs| then Ok([])
    else
      var dir :- DirectoryOf(iv, recs[t]);
      match dir
      case None => Directories(file, iv, recs, t + 1)
      case Some((c, location, n)) =>
        var (table, _) :- ReadRecords(ClassReader(DirRecordClass(c), file), location, n);
        var rest :- Directories(file, iv, recs, t + 1);
        Ok(table + rest)
  }

  /** Marks do not change which directory tables the entries point at. */
  lemma {:induction false} DirectoriesBlind(file: seq<byte>, iv: Result<string>, recs: seq<Record>, recs': seq<Record>, t: nat)
    requires MarkedOnly(recs, recs')
    ensures Directories(file, iv, recs', t) == Directories(file, iv, recs, t)
    decreases |recs| - t
  {
    if t < |recs| {
      DirectoryOfBlind(iv, recs[t]);
      assert DirectoryOf(iv, recs'[t]) == DirectoryOf(iv, recs[t]);
      DirectoriesBlind(file, iv, recs, recs', t + 1);
    }
  }

  lemma {:induction false} DirectoriesUnflagged(file: seq<byte>, iv: Result<string>, recs: seq<Record>, t: nat)
    ensures Directories(file, iv, recs, t).Ok? ==> Unflagged(Directories(file, iv, recs, t).value)
    decreases |recs| - t
  {
    if t < |recs| {
      DirectoriesUnflagged(file, iv, recs, t + 1);
      var dir := DirectoryOf(iv, recs[t]);
      if dir.Ok? && dir.value.Some? {
        var (c, location, n) := dir.value.value;
        var table := ReadRecords(ClassReader(DirRecordClass(c), file), location, n);
        var rest := Directories(file, iv, recs, t + 1);
        if table.Ok? && rest.Ok? {
          assert Directories(file, iv, recs, t).value == table.value.0 + rest.value;
          DirReaderUnflagged(c, file);
          ReadRecordsUnflagged(ClassReader(DirRecordClass(c), file), location, n);
          UnflaggedAppend(table.value.0, rest.value);
        }
      }
    }
  }

  lemma {:induction false} UnflaggedAppend(a: seq<Record>, b: seq<Record>)
    requires Unflagged(a) && Unflagged(b)
    ensures Unflagged(a + b)
  {
    forall i | 0 <= i < |a + b|
      ensures Compressed !in Names((a + b)[i].layout)
    {
      if i < |a| {
        assert (a + b)[i] == a[i];
      } else {
        assert (a + b)[i] == b[i - |a|];
      }
    }
  }

  lemma {:induction false} DirectoriesMatchersBlind(cmp: Comparison, file: seq<byte>, iv: Result<string>, recs: seq<Record>, t: nat)
    ensures Directories(file, iv, recs, t).Ok? ==> AllBlind(MatchersOf(cmp, Directories(file, iv, recs, t).value))
  {
    DirectoriesUnflagged(file, iv, recs, t);
    if Directories(file, iv, recs, t).Ok? {
      UnflaggedBlind(cmp, Directories(file, iv, recs, t).value);
    }
  }

  lemma {:induction false} MatchersOfAppend(cmp: Comparison, a: seq<Record>, b: seq<Record>)
    ensures MatchersOf(cmp, a + b) == MatchersOf(cmp, a) + MatchersOf(cmp, b)
  {
    if a == [] {
      assert a + b == b;
    } else {
      assert (a + b)[1..] == a[1..] + b;
      MatchersOfAppend(cmp, a[1..], b);
    }
  }

  /** The entries two tables list are those the first lists and those the second lists. */
  lemma {:induction false} ListedAppend(ms1: seq<Matcher>, ms2: seq<Matcher>, recs: seq<Record>, pool: seq<nat>)
    ensures Listed(ms1 + ms2, recs, pool) == Listed(ms1, recs, pool) + Listed(ms2, recs, pool)
  {
    forall p: nat
      ensures p in Listed(ms1 + ms2, recs, pool) <==> p in Listed(ms1, recs, pool) + Listed(ms2, recs, pool)
    {
      if p in Listed(ms1 + ms2, recs, pool) {
        var i :| 0 <= i < |ms1 + ms2| && (ms1 + ms2)[i](recs[p]) == Ok(true);
        if i < |ms1| {
          assert ms1[i](recs[p]) == Ok(true);
        } else {
          assert ms2[i - |ms1|](recs[p]) == Ok(true);
        }
      }
      if p in Listed(ms1, recs, pool) {
        var i :| 0 <= i < |ms1| && ms1[i](recs[p]) == Ok(true);
        assert (ms1 + ms2)[i](recs[p]) == Ok(true);
      }
      if p in Listed(ms2, recs, pool) {
        var i :| 0 <= i < |ms2| && ms2[i](recs[p]) == Ok(true);
        assert (ms1 + ms2)[|ms1| + i](recs[p]) == Ok(true);
      }
    }
  }

  /**
   * The marks of one table, then the marks of the later directories found
   * on the marked entries, are the marks of all those tables together.
   */
  lemma {:induction false} MarkTables(cmp: Comparison, file: seq<byte>, iv: Result<string>, recs: seq<Record>, t: nat,
                                      table: seq<Record>, recs1: seq<Record>)
    requires Directories(file, iv, recs, t).Ok?
    requires recs1 == MarkSet(recs, Listed(MatchersOf(cmp, table), recs, Positions(|recs|)))
    ensures Directories(file, iv, recs1, t) == Directories(file, iv, recs, t)
    ensures MarkSet(recs1, Listed(MatchersOf(cmp, Directories(file, iv, recs, t).value), recs1, Positions(|recs1|))) ==
      MarkSet(recs, Listed(MatchersOf(cmp, table + Directories(file, iv, recs, t).value), recs, Positions(|recs|)))
  {
    var rest := Directories(file, iv, recs, t).value;
    var pool := Positions(|recs|);
    MarkSetMarkedOnly(recs, Listed(MatchersOf(cmp, table), recs, pool));
    DirectoriesBlind(file, iv, recs, recs1, t);
    DirectoriesMatchersBlind(cmp, file, iv, recs, t);
    ListedBlind(MatchersOf(cmp, rest), recs, recs1, pool);
    MarkSetUnion(recs, Listed(MatchersOf(cmp, table), recs, pool), Listed(MatchersOf(cmp, rest), recs, pool));
    MatchersOfAppend(cmp, table, rest);
    ListedAppend(MatchersOf(cmp, table), MatchersOf(cmp, rest), recs, pool);
  }

  /**
   * The pass that drops each match, from the `t`-th entry on, reads every directory
   * table, and each entry ends up marked exactly when some record of those
   * tables matches it.
   */
  lemma {:induction false} MarkFromDropMeaning(cmp: Comparison, file: seq<byte>, iv: Result<string>, recs: seq<Record>, t: nat)
    ensures MarkFrom(Search(DropMatch, cmp), file, iv, recs, t).Ok? ==> Directories(file, iv, recs, t).Ok?
    ensures MarkFrom(Search(DropMatch, cmp), file, iv, recs, t).Ok? ==>
      MarkFrom(Search(DropMatch, cmp), file, iv, recs, t).value ==
        MarkSet(recs, Listed(MatchersOf(cmp, Directories(file, iv, recs, t).value), recs, Positions(|recs|)))
    decreases |recs| - t, 1
  {
    if t >= |recs| {
      assert MarkSet(recs, {}) == recs;
      assert Listed([], recs, Positions(|recs|)) == {};
    } else {
      var dir := DirectoryOf(iv, recs[t]);
      if dir.Ok? {
        if dir.value.None? {
          MarkFromDropMeaning(cmp, file, iv, recs, t + 1);
        } else {
          var (c, location, n) := dir.value.value;
          var r := DirTable(Search(DropMatch, cmp), ClassReader(DirRecordClass(c), file), location, n, recs, Positions(|recs|));
          if r.Ok? {
            MarkFromStep(cmp, file, iv, recs, t, c, location, n, r.value);
          }
        }
      }
    }
  }

  /** Its step at a directory entry. */
  lemma {:induction false} MarkFromStep(cmp: Comparison, file: seq<byte>, iv: Result<string>, recs: seq<Record>, t: nat,
                                        c: DirClass, location: nat, n: nat, recs1: seq<Record>)
    requires t < |recs| && DirectoryOf(iv, recs[t]) == Ok(Some((c, location, n)))
    requires DirTable(Search(DropMatch, cmp), ClassReader(DirRecordClass(c), file), location, n, recs, Positions(|recs|)) == Ok(recs1)
    ensures MarkFrom(Search(DropMatch, cmp), file, iv, recs, t).Ok? ==> Directories(file, iv, recs, t).Ok?
    ensures MarkFrom(Search(DropMatch, cmp), file, iv, recs, t).Ok? ==>
      MarkFrom(Search(DropMatch, cmp), file, iv, recs, t).value ==
        MarkSet(recs, Listed(MatchersOf(cmp, Directories(file, iv, recs, t).value), recs, Positions(|recs|)))
    decreases |recs| - t, 0
  {
    var parse := ClassReader(DirRecordClass(c), file);
    DirReaderUnflagged(c, file);
    DirTableDropMeaning(cmp, parse, location, n, recs, Positions(|recs|));
    var table := ReadRecords(parse, location, n).value.0;
    DirTableKeeps(Search(DropMatch, cmp), parse, location, n, recs, Positions(|recs|));
    assert |recs1| == |recs|;
    assert MarkFrom(Search(DropMatch, cmp), file, iv, recs, t) == MarkFrom(Search(DropMatch, cmp), file, iv, recs1, t + 1);
    MarkFromDropMeaning(cmp, file, iv, recs1, t + 1);
    if MarkFrom(Search(DropMatch, cmp), file, iv, recs1, t + 1).Ok? {
      DirectoriesBlind(file, iv, recs, recs1, t + 1);
      MarkTables(cmp, file, iv, recs, t + 1, table, recs1);
    }
  }

  /** Either pass changes nothing but marks. */
  lemma {:induction false} MarkFromKeeps(pass: Pass, file: seq<byte>, iv: Result<string>, recs: seq<Record>, t: nat)
    ensures MarkFrom(pass, file, iv, recs, t).Ok? ==> MarkedOnly(recs, MarkFrom(pass, file, iv, recs, t).value)
    decreases |recs| - t
  {
    if t >= |recs| {
      assert MarkedOnly(recs, recs);
    } else {
      var dir := DirectoryOf(iv, recs[t]);
      if dir.Ok? {
        if dir.value.None? {
          MarkFromKeeps(pass, file, iv, recs, t + 1);
        } else {
          var (c, location, n) := dir.value.value;
          var parse := ClassReader(DirRecordClass(c), file);
          DirTableKeeps(pass, parse, location, n, recs, Positions(|recs|));
          var r := DirTable(pass, parse, location, n, recs, Positions(|recs|));
          if r.Ok? {
            MarkFromKeeps(pass, file, iv, r.value, t + 1);
            var m := MarkFrom(pass, file, iv, r.value, t + 1);
            if m.Ok? {
              MarkedOnlyTrans(recs, r.value, m.value);
            }
          }
        }
      }
    }
  }

  /** Without a directory entry, either pass leaves the entries as they are. */
  lemma {:induction false} NoDirectoryNoMarks(pass: Pass, file: seq<byte>, iv: Result<string>, recs: seq<Record>, t: nat)
    requires forall k :: t <= k < |recs| ==> DirectoryOf(iv, recs[k]) == Ok(None)
    ensures MarkFrom(pass, file, iv, recs, t) == Ok(recs)
    decreases |recs| - t
  {
    if t < |recs| {
      NoDirectoryNoMarks(pass, file, iv, recs, t + 1);
    }
  }

  // ----- What either pass may mark -----

  /** `after` is `recs` with marks set at positions of `s` and nowhere else. */
  predicate MarksWithin(recs: seq<Record>, after: seq<Record>, s: set<nat>)
  {
    |after| == |recs| && forall p :: 0 <= p < |recs| ==> after[p] == recs[p] || (p in s && after[p] == Mark(recs[p]))
  }

  lemma {:induction false} MarksWithinTrans(a: seq<Record>, b: seq<Record>, c: seq<Record>, s: set<nat>, u: set<nat>)
    requires MarksWithin(a, b, s) && MarksWithin(b, c, u)
    ensures MarksWithin(a, c, s + u)
  {
    forall p | 0 <= p < |a|
      ensures c[p] == a[p] || (p in s + u && c[p] == Mark(a[p]))
    {
      if b[p] != a[p] {
        MarkIdempotent(a[p]);
      }
    }
  }

  lemma {:induction false} PositionsMember(n: nat, p: nat)
    requires p < n
    ensures p in Positions(n)
  {
    assert Positions(n)[p] == p;
  }

  /**
   * Either search marks only entries the record matches: every entry it
   * flags, `list.remove` or not, is one `matches` answers True for.
   */
  lemma {:induction false} ScanMarksMatched(removal: Removal, matches: Matcher, recs: seq<Record>, pool: seq<nat>, j: nat)
    requires Blind(matches) && InRange(pool, |recs|)
    ensures Scan(removal, matches, recs, pool, j).Ok? ==>
      MarksWithin(recs, Scan(removal, matches, recs, pool, j).value.0, Hits(matches, recs, Positions(|recs|)))
    decreases |pool| + 1 - j, 1
  {
    if j < |pool| {
      var q := pool[j];
      var hit := matches(recs[q]);
      if hit.Ok? {
        if !hit.value {
          ScanMarksMatched(removal, matches, recs, pool, j + 1);
        } else {
          ScanHitMarksMatched(removal, matches, recs, pool, j);
        }
      }
    }
  }

  /** The step of `ScanMarksMatched` on a match. */
  lemma {:induction false} ScanHitMarksMatched(removal: Removal, matches: Matcher, recs: seq<Record>, pool: seq<nat>, j: nat)
    requires Blind(matches) && InRange(pool, |recs|) && j < |pool| && matches(recs[pool[j]]) == Ok(true)
    ensures Scan(removal, matches, recs, pool, j).Ok? ==>
      MarksWithin(recs, Scan(removal, matches, recs, pool, j).value.0, Hits(matches, recs, Positions(|recs|)))
    decreases |pool| + 1 - j, 0
  {
    var q := pool[j];
    var marked := recs[q := Mark(recs[q])];
    MarkOneWithin(matches, recs, q);
    match removal
    case ListRemove =>
      var rest := Remove(marked, pool, q);
      if rest.Ok? {
        ScanMarksMatched(removal, matches, marked, rest.value, j + 1);
        var r := Scan(removal, matches, marked, rest.value, j + 1);
        if r.Ok? {
          HitThenWithin(recs, marked, r.value.0, q, Hits(matches, recs, Positions(|recs|)));
        }
      }
    case DropMatch =>
      var pool' := pool[..j] + pool[j + 1..];
      DropInRange(pool, j, |recs|);
      ScanMarksMatched(removal, matches, marked, pool', j);
      var r := Scan(removal, matches, marked, pool', j);
      if r.Ok? {
        HitThenWithin(recs, marked, r.value.0, q, Hits(matches, recs, Positions(|recs|)));
      }
  }

  /** Marking one entry a blind matcher matches marks within its hits and leaves its hits as they were. */
  lemma {:induction false} MarkOneWithin(matches: Matcher, recs: seq<Record>, q: nat)
    requires Blind(matches) && q < |recs| && matches(recs[q]) == Ok(true)
    ensures MarksWithin(recs, recs[q := Mark(recs[q])], {q})
    ensures q in Hits(matches, recs, Positions(|recs|))
    ensures Hits(matches, recs[q := Mark(recs[q])], Positions(|recs|)) == Hits(matches, recs, Positions(|recs|))
  {
    var marked := recs[q := Mark(recs[q])];
    var all := Positions(|recs|);
    PositionsMember(|recs|, q);
    assert MarkedOnly(recs, marked);
    assert InRange(all, |recs|);
    BlindAgree(matches, recs, marked, all);
  }

  /** One marked entry of `h`, then marks within `h`: marks within `h`. */
  lemma {:induction false} HitThenWithin(recs: seq<Record>, marked: seq<Record>, after: seq<Record>, q: nat, h: set<nat>)
    requires q in h && MarksWithin(recs, marked, {q}) && MarksWithin(marked, after, h)
    ensures MarksWithin(recs, after, h)
  {
    MarksWithinTrans(recs, marked, after, {q}, h);
    assert {q} + h == h;
  }

  /** The entries the first matcher or one of the others matches. */
  lemma {:induction false} ListedHead(m: Matcher, ms: seq<Matcher>, recs: seq<Record>, pool: seq<nat>)
    ensures Hits(m, recs, pool) + Listed(ms, recs, pool) == Listed([m] + ms, recs, pool)
  {
    forall p: nat
      ensures p in Hits(m, recs, pool) + Listed(ms, recs, pool) <==> p in Listed([m] + ms, recs, pool)
    {
      if p in Hits(m, recs, pool) {
        assert ([m] + ms)[0](recs[p]) == Ok(true);
      }
      if p in Listed(ms, recs, pool) {
        var i :| 0 <= i < |ms| && ms[i](recs[p]) == Ok(true);
        assert ([m] + ms)[i + 1](recs[p]) == Ok(true);
      }
      if p in Listed([m] + ms, recs, pool) && p !in Hits(m, recs, pool) {
        var i :| 0 <= i < |ms| + 1 && ([m] + ms)[i](recs[p]) == Ok(true);
        assert i > 0 && ms[i - 1](recs[p]) == Ok(true);
      }
    }
  }

  /**
   * Either pass, on one directory table, marks only entries some record of
   * the table matches.
   */
  lemma {:induction false} DirTableMarksListed(pass: Pass, parse: Reader, pos: nat, n: nat, recs: seq<Record>, pool: seq<nat>)
    requires UnflaggedReader(parse) && InRange(pool, |recs|)
    ensures DirTable(pass, parse, pos, n, recs, pool).Ok? ==>
      ReadRecords(parse, pos, n).Ok? &&
      MarksWithin(recs, DirTable(pass, parse, pos, n, recs, pool).value,
        Listed(MatchersOf(pass.comparison, ReadRecords(parse, pos, n).value.0), recs, Positions(|recs|)))
    decreases n
  {
    if n == 0 {
      assert MarkedOnly(recs, recs);
    } else if parse(pos).Ok? {
      var (d, next) := parse(pos).value;
      var m := EqualsIndexOf(pass.comparison, d);
      var s := Scan(pass.removal, m, recs, pool, 0);
      DirTableUnfold(pass, parse, pos, n, recs, pool);
      if s.Ok? {
        var (recs1, pool1) := s.value;
        CompareBlind(pass.comparison, d);
        ScanMarksMatched(pass.removal, m, recs, pool, 0);
        DirTableMarksListed(pass, parse, next, n - 1, recs1, pool1);
        var r := DirTable(pass, parse, next, n - 1, recs1, pool1);
        if r.Ok? {
          DirTableListedStep(pass.comparison, parse, pos, n - 1, d, next, recs, recs1, r.value);
        }
      }
    }
  }

  /**
   * The step of `DirTableMarksListed`, given what it shows for the `m`
   * records after the first.
   */
  lemma {:induction false} DirTableListedStep(cmp: Comparison, parse: Reader, pos: nat, m: nat, d: Record, next: nat,
                                              recs: seq<Record>, recs1: seq<Record>, after: seq<Record>)
    requires UnflaggedReader(parse) && parse(pos) == Ok((d, next))
    requires ReadRecords(parse, next, m).Ok?
    requires MarksWithin(recs, recs1, Hits(EqualsIndexOf(cmp, d), recs, Positions(|recs|)))
    requires MarksWithin(recs1, after, Listed(MatchersOf(cmp, ReadRecords(parse, next, m).value.0), recs1, Positions(|recs1|)))
    ensures ReadRecords(parse, pos, m + 1).Ok?
    ensures MarksWithin(recs, after, Listed(MatchersOf(cmp, ReadRecords(parse, pos, m + 1).value.0), recs, Positions(|recs|)))
  {
    ReadRecordsCons(cmp, parse, pos, m, d, next);
    DirTableSoundStep(cmp, recs, recs1, after, d, ReadRecords(parse, next, m).value.0,
                      ReadRecords(parse, pos, m + 1).value.0);
  }

  /**
   * A table whose first record reads and whose `m` further records read is
   * read record by record, and the matchers of the rest ignore the flag.
   */
  lemma {:induction false} ReadRecordsCons(cmp: Comparison, parse: Reader, pos: nat, m: nat, d: Record, next: nat)
    requires UnflaggedReader(parse)
    requires parse(pos) == Ok((d, next)) && ReadRecords(parse, next, m).Ok?
    ensures ReadRecords(parse, pos, m + 1).Ok?
    ensures ReadRecords(parse, pos, m + 1).value.0 == [d] + ReadRecords(parse, next, m).value.0
    ensures AllBlind(MatchersOf(cmp, ReadRecords(parse, next, m).value.0))
  {
    ReadRecordsHead(parse, pos, m, d, next);
    ReadRecordsBlind(cmp, parse, next, m);
  }

  /** A table whose first record reads and whose `m` further records read is read record by record. */
  lemma {:induction false} ReadRecordsHead(parse: Reader, pos: nat, m: nat, d: Record, next: nat)
    requires parse(pos) == Ok((d, next)) && ReadRecords(parse, next, m).Ok?
    ensures ReadRecords(parse, pos, m + 1).Ok?
    ensures ReadRecords(parse, pos, m + 1).value.0 == [d] + ReadRecords(parse, next, m).value.0
  {
  }

  /** The step of `DirTableMarksListed`: the first record's marks, then the rest of the table's. */
  lemma {:induction false} DirTableSoundStep(cmp: Comparison, recs: seq<Record>, recs1: seq<Record>, after: seq<Record>,
                                             d: Record, rest: seq<Record>, all: seq<Record>)
    requires all == [d] + rest
    requires AllBlind(MatchersOf(cmp, rest))
    requires MarksWithin(recs, recs1, Hits(EqualsIndexOf(cmp, d), recs, Positions(|recs|)))
    requires MarksWithin(recs1, after, Listed(MatchersOf(cmp, rest), recs1, Positions(|recs1|)))
    ensures MarksWithin(recs, after, Listed(MatchersOf(cmp, all), recs, Positions(|recs|)))
  {
    MarksThenRest(recs, recs1, after, Hits(EqualsIndexOf(cmp, d), recs, Positions(|recs|)), MatchersOf(cmp, rest));
    assert MatchersOf(cmp, [d] + rest) == [EqualsIndexOf(cmp, d)] + MatchersOf(cmp, rest);
    ListedHead(EqualsIndexOf(cmp, d), MatchersOf(cmp, rest), recs, Positions(|recs|));
  }

  /** Marks within `h`, then marks the blind matchers `ms` list on the marked entries: marks within both. */
  lemma {:induction false} MarksThenRest(recs: seq<Record>, recs1: seq<Record>, after: seq<Record>, h: set<nat>, ms: seq<Matcher>)
    requires AllBlind(ms) && MarksWithin(recs, recs1, h)
    requires MarksWithin(recs1, after, Listed(ms, recs1, Positions(|recs1|)))
    ensures MarksWithin(recs, after, h + Listed(ms, recs, Positions(|recs|)))
  {
    ListedBlind(ms, recs, recs1, Positions(|recs|));
    MarksWithinTrans(recs, recs1, after, h, Listed(ms, recs, Positions(|recs|)));
  }

  /**
   * Either pass, the source's own included, marks only entries some record
   * of the directory tables matches, and it has read every such table.
   */
  lemma {:induction false} MarkFromMarksListed(pass: Pass, file: seq<byte>, iv: Result<string>, recs: seq<Record>, t: nat)
    ensures MarkFrom(pass, file, iv, recs, t).Ok? ==>
      Directories(file, iv, recs, t).Ok? &&
      MarksWithin(recs, MarkFrom(pass, file, iv, recs, t).value,
        Listed(MatchersOf(pass.comparison, Directories(file, iv, recs, t).value), recs, Positions(|recs|)))
    decreases |recs| - t, 1
  {
    if t >= |recs| {
      assert MarkedOnly(recs, recs);
    } else {
      var dir := DirectoryOf(iv, recs[t]);
      if dir.Ok? {
        if dir.value.None? {
          MarkFromMarksListed(pass, file, iv, recs, t + 1);
        } else {
          var (c, location, n) := dir.value.value;
          var r := DirTable(pass, ClassReader(DirRecordClass(c), file), location, n, recs, Positions(|recs|));
          if r.Ok? {
            MarkFromSoundStep(pass, file, iv, recs, t, c, location, n, r.value);
          }
        }
      }
    }
  }

  /** The step of `MarkFromMarksListed` at a directory entry. */
  lemma {:induction false} MarkFromSoundStep(pass: Pass, file: seq<byte>, iv: Result<string>, recs: seq<Record>, t: nat,
                                             c: DirClass, location: nat, n: nat, recs1: seq<Record>)
    requires t < |recs| && DirectoryOf(iv, recs[t]) == Ok(Some((c, location, n)))
    requires DirTable(pass, ClassReader(DirRecordClass(c), file), location, n, recs, Positions(|recs|)) == Ok(recs1)
    ensures MarkFrom(pass, file, iv, recs, t).Ok? ==>
      Directories(file, iv, recs, t).Ok? &&
      MarksWithin(recs, MarkFrom(pass, file, iv, recs, t).value,
        Listed(MatchersOf(pass.comparison, Directories(file, iv, recs, t).value), recs, Positions(|recs|)))
    decreases |recs| - t, 0
  {
    var cmp := pass.comparison;
    var parse := ClassReader(DirRecordClass(c), file);
    var all := Positions(|recs|);
    DirReaderUnflagged(c, file);
    DirTableMarksListed(pass, parse, location, n, recs, all);
    var table := ReadRecords(parse, location, n).value.0;
    DirTableKeeps(pass, parse, location, n, recs, all);
    assert |recs1| == |recs|;
    assert MarkFrom(pass, file, iv, recs, t) == MarkFrom(pass, file, iv, recs1, t + 1);
    MarkFromMarksListed(pass, file, iv, recs1, t + 1);
    var final := MarkFrom(pass, file, iv, recs1, t + 1);
    if final.Ok? {
      DirectoriesBlind(file, iv, recs, recs1, t + 1);
      DirectoriesMatchersBlind(cmp, file, iv, recs, t + 1);
      var rest := Directories(file, iv, recs, t + 1).value;
      assert Directories(file, iv, recs, t).value == table + rest;
      MarkFromJoin(cmp, recs, recs1, final.value, table, rest);
    }
  }

  /** The marks of one directory table, then those of the later ones: marks within the tables joined. */
  lemma {:induction false} MarkFromJoin(cmp: Comparison, recs: seq<Record>, recs1: seq<Record>, after: seq<Record>,
                                        table: seq<Record>, rest: seq<Record>)
    requires AllBlind(MatchersOf(cmp, rest)) && MarkedOnly(recs, recs1)
    requires MarksWithin(recs, recs1, Listed(MatchersOf(cmp, table), recs, Positions(|recs|)))
    requires MarksWithin(recs1, after, Listed(MatchersOf(cmp, rest), recs1, Positions(|recs1|)))
    ensures MarksWithin(recs, after, Listed(MatchersOf(cmp, table + rest), recs, Positions(|recs|)))
  {
    var all := Positions(|recs|);
    ListedBlind(MatchersOf(cmp, rest), recs, recs1, all);
    MarksWithinTrans(recs, recs1, after, Listed(MatchersOf(cmp, table), recs, all), Listed(MatchersOf(cmp, rest), recs, all));
    MatchersOfAppend(cmp, table, rest);
    ListedAppend(MatchersOf(cmp, table), MatchersOf(cmp, rest), recs, all);
  }

  /**
   * `_mark_compressed` exactly as written changes only entries that some
   * directory record's `equals_index` accepts, and changes them by setting
   * their flag.
   */
  lemma {:induction false} AsWrittenMarksListed(file: seq<byte>, iv: Result<string>, recs: seq<Record>)
    ensures MarkFrom(AsWritten, file, iv, recs, 0).Ok? ==>
      Directories(file, iv, recs, 0).Ok? &&
      |MarkFrom(AsWritten, file, iv, recs, 0).value| == |recs| &&
      forall p :: 0 <= p < |recs| && MarkFrom(AsWritten, file, iv, recs, 0).value[p] != recs[p] ==>
        MarkFrom(AsWritten, file, iv, recs, 0).value[p] == Mark(recs[p]) &&
        p in Listed(MatchersOf(NamesAsWritten, Directories(file, iv, recs, 0).value), recs, Positions(|recs|))
  {
    MarkFromMarksListed(AsWritten, file, iv, recs, 0);
  }
}
