/**
 * The fixed-layout record codec of simtools/util.py (class BaseStruct).
 *
 * A layout is the declared field list together with the struct format
 * (one format character per field, standard sizes, little endian). A record
 * is the state of one BaseStruct instance: its layout, the ordered
 * dictionary `_data` that maps the declared fields to their values, and the
 * instance attributes stored outside `_data` (such as `compressed`).
 */
module BaseStruct {
  import opened Wrappers
  import opened Bytes
  import opened FieldNames

  /** Format characters: B, b, H, I, i and `n`s. */
  datatype Kind = U8 | I8 | U16 | U32 | I32 | Chars(n: nat)

  datatype Field = Field(name: Name, kind: Kind)

  type Layout = seq<Field>

  /** The Python values a field or attribute holds in this model. */
  datatype Value = NoneValue | Int(i: int) | Str(s: seq<byte>) | Bool(b: bool)

  function Width(k: Kind): (w: nat)
  {
    match k
    case U8 => 1
    case I8 => 1
    case U16 => 2
    case U32 => 4
    case I32 => 4
    case Chars(n) => n
  }

  /** `_struct.size`: the total byte width of a layout. */
  function StructSize(layout: Layout): nat
  {
    if layout == [] then 0 else Width(layout[0].kind) + StructSize(layout[1..])
  }

  function Names(layout: Layout): (names: seq<Name>)
    ensures |names| == |layout|
    ensures forall i :: 0 <= i < |layout| ==> names[i] == layout[i].name
  {
    if layout == [] then [] else [layout[0].name] + Names(layout[1..])
  }

  /** A name that no field carries is not among the layout's names. */
  lemma {:induction false} NotAmongNames(layout: Layout, name: Name)
    requires forall i :: 0 <= i < |layout| ==> layout[i].name != name
    ensures name !in Names(layout)
  {
  }

  /** Field names are distinct, as in every layout of the source; checked pair by pair. */
  predicate WellFormed(layout: Layout)
  {
    forall i, j :: 0 <= i < j < |layout| ==> NameAt(layout, i) != NameAt(layout, j)
  }

  /** The name of field `i`; the pairwise check is stated over it so that it is only used where asked for. */
  function NameAt(layout: Layout, i: nat): Name
    requires i < |layout|
  {
    layout[i].name
  }

  /** Distinct names make distinct dictionary keys. */
  lemma {:induction false} WellFormedDistinct(layout: Layout)
    requires WellFormed(layout)
    ensures Distinct(NamedKeys(layout))
  {
    if layout != [] {
      var ks := NamedKeys(layout);
      assert ks[1..] == NamedKeys(layout[1..]);
      forall i, j | 0 <= i < j < |layout| - 1
        ensures NameAt(layout[1..], i) != NameAt(layout[1..], j)
      {
        assert NameAt(layout, i + 1) != NameAt(layout, j + 1);
      }
      WellFormedDistinct(layout[1..]);
      forall j | 1 <= j < |layout|
        ensures ks[j] != ks[0]
      {
        assert NameAt(layout, 0) != NameAt(layout, j);
      }
      assert ks[0] !in ks[1..];
    }
  }

  lemma {:induction false} StructSizeConcat(a: Layout, b: Layout)
    ensures StructSize(a + b) == StructSize(a) + StructSize(b)
  {
    if a == [] {
      assert a + b == b;
    } else {
      assert (a + b)[0] == a[0] && (a + b)[1..] == a[1..] + b;
      StructSizeConcat(a[1..], b);
    }
  }

  /** No name of `a` is a name of `b`. */
  predicate Disjoint(a: Layout, b: Layout)
  {
    forall i, j :: 0 <= i < |a| && 0 <= j < |b| ==> a[i].name != b[j].name
  }

  /** Two layouts with distinct names and no name in common concatenate to one with distinct names. */
  lemma {:induction false} WellFormedConcat(a: Layout, b: Layout)
    requires WellFormed(a) && WellFormed(b) && Disjoint(a, b)
    ensures WellFormed(a + b)
  {
    forall i, j | 0 <= i < j < |a + b|
      ensures NameAt(a + b, i) != NameAt(a + b, j)
    {
      if j < |a| {
        assert NameAt(a, i) != NameAt(a, j);
      } else if i < |a| {
        assert (a + b)[j] == b[j - |a|];
      } else {
        assert NameAt(b, i - |a|) != NameAt(b, j - |a|);
        assert (a + b)[i] == b[i - |a|] && (a + b)[j] == b[j - |a|];
      }
    }
  }

  predicate Signed(k: Kind)
  {
    k == I8 || k == I32
  }

  /** `v` is a value that `DecodeField(k, _)` can produce. */
  predicate Fits(k: Kind, v: Value)
  {
    if k.Chars? then v.Str? && |v.s| == k.n
    else
      v.Int? &&
      if Signed(k) then -(Half(Width(k)) as int) <= v.i < Half(Width(k))
      else 0 <= v.i < Pow256(Width(k))
  }

  function DecodeField(k: Kind, bs: seq<byte>): (v: Value)
    requires |bs| == Width(k)
    ensures Fits(k, v)
  {
    if k.Chars? then Str(bs)
    else
      if Signed(k) then Int(ToSigned(LittleEndian(bs), Width(k)))
      else Int(LittleEndian(bs))
  }

  /** `n` zero bytes, the padding of a short byte string. */
  function Zeros(n: nat): (z: seq<byte>)
    ensures |z| == n && forall i :: 0 <= i < n ==> z[i] == 0
  {
    if n == 0 then [] else [0] + Zeros(n - 1)
  }

  /**
   * Packing one value: integers (and bools, which Python packs as 0 and 1)
   * must lie in the format's range; a byte string is truncated or padded
   * with zero bytes to the declared length; anything else is refused.
   */
  function EncodeField(k: Kind, v: Value): (r: Result<seq<byte>>)
    ensures r.Ok? ==> |r.value| == Width(k)
    ensures Fits(k, v) ==> r.Ok?
  {
    if k.Chars? then
      if !v.Str? then Err(StructError)
      else if |v.s| >= k.n then Ok(v.s[..k.n])
      else Ok(v.s + Zeros(k.n - |v.s|))
    else
      var w := Width(k);
      if !(v.Int? || v.Bool?) then Err(StructError)
      else
        var i := if v.Int? then v.i else if v.b then 1 else 0;
        if Signed(k) then
          if -(Half(w) as int) <= i < Half(w) then Ok(ToLittleEndian(FromSigned(i, w), w))
          else Err(StructError)
        else if 0 <= i < Pow256(w) then Ok(ToLittleEndian(i, w))
        else Err(StructError)
  }

  lemma {:induction false} EncodeDecodeField(k: Kind, bs: seq<byte>)
    requires |bs| == Width(k)
    ensures EncodeField(k, DecodeField(k, bs)) == Ok(bs)
  {
    if k.Chars? {
      assert bs[..k.n] == bs;
    } else {
      var w := Width(k);
      LittleEndianRoundTrip(bs);
      if Signed(k) {
        SignedRoundTrip(LittleEndian(bs), w);
        assert EncodeField(k, DecodeField(k, bs)) == Ok(ToLittleEndian(FromSigned(ToSigned(LittleEndian(bs), w), w), w));
      } else {
        assert EncodeField(k, DecodeField(k, bs)) == Ok(ToLittleEndian(LittleEndian(bs), w));
      }
    }
  }

  lemma {:induction false} DecodeEncodeField(k: Kind, v: Value)
    requires Fits(k, v)
    ensures EncodeField(k, v).Ok? && DecodeField(k, EncodeField(k, v).value) == v
  {
    if !k.Chars? {
      var w := Width(k);
      if Signed(k) {
        ToLittleEndianRoundTrip(FromSigned(v.i, w), w);
      } else {
        ToLittleEndianRoundTrip(v.i, w);
      }
    }
  }

  /** The values of a layout read from exactly `StructSize(layout)` bytes, in field order. */
  function DecodeAll(layout: Layout, bs: seq<byte>): (vals: seq<Value>)
    requires |bs| == StructSize(layout)
    ensures |vals| == |layout|
  {
    if layout == [] then []
    else
      var w := Width(layout[0].kind);
      [DecodeField(layout[0].kind, bs[..w])] + DecodeAll(layout[1..], bs[w..])
  }

  function EncodeAll(layout: Layout, vals: seq<Value>): (r: Result<seq<byte>>)
    requires |vals| == |layout|
    ensures r.Ok? ==> |r.value| == StructSize(layout)
  {
    if layout == [] then Ok([])
    else
      var head :- EncodeField(layout[0].kind, vals[0]);
      var tail :- EncodeAll(layout[1..], vals[1..]);
      Ok(head + tail)
  }

  /** `_struct.unpack(data)`: refuses data whose length is not the layout's size. */
  function Unpack(layout: Layout, bs: seq<byte>): (r: Result<seq<Value>>)
    ensures r.Ok? <==> |bs| == StructSize(layout)
    ensures r.Err? ==> r.error == StructError
    ensures r.Ok? ==> |r.value| == |layout|
  {
    if |bs| != StructSize(layout) then Err(StructError) else Ok(DecodeAll(layout, bs))
  }

  /** `_struct.pack(*values)`: refuses a wrong number of values or an unpackable value. */
  function Pack(layout: Layout, vals: seq<Value>): (r: Result<seq<byte>>)
    ensures r.Ok? ==> |vals| == |layout| && |r.value| == StructSize(layout)
  {
    if |vals| != |layout| then Err(StructError) else EncodeAll(layout, vals)
  }

  lemma {:induction false} PackOfUnpack(layout: Layout, bs: seq<byte>)
    requires |bs| == StructSize(layout)
    ensures Pack(layout, DecodeAll(layout, bs)) == Ok(bs)
  {
    if layout != [] {
      var w := Width(layout[0].kind);
      EncodeDecodeField(layout[0].kind, bs[..w]);
      PackOfUnpack(layout[1..], bs[w..]);
      assert bs == bs[..w] + bs[w..];
    }
  }

  lemma {:induction false} UnpackOfPack(layout: Layout, vals: seq<Value>)
    requires |vals| == |layout|
    requires forall i :: 0 <= i < |layout| ==> Fits(layout[i].kind, vals[i])
    ensures Pack(layout, vals).Ok?
    ensures Unpack(layout, Pack(layout, vals).value) == Ok(vals)
  {
    if layout != [] {
      DecodeEncodeField(layout[0].kind, vals[0]);
      assert forall i :: 0 <= i < |layout| - 1 ==> Fits(layout[1..][i].kind, vals[1..][i]) by {
        forall i | 0 <= i < |layout| - 1 ensures Fits(layout[1..][i].kind, vals[1..][i]) {
          assert layout[1..][i] == layout[i + 1] && vals[1..][i] == vals[i + 1];
        }
      }
      UnpackOfPack(layout[1..], vals[1..]);
      var head := EncodeField(layout[0].kind, vals[0]).value;
      var tail := EncodeAll(layout[1..], vals[1..]).value;
      var w := Width(layout[0].kind);
      assert (head + tail)[..w] == head && (head + tail)[w..] == tail;
      assert vals == [vals[0]] + vals[1..];
    }
  }

  // ----- The ordered dictionary `_data` -----

  /** A dictionary key: a declared field name, or Python's None. */
  datatype Key = Named(name: Name) | NoneKey

  /** An OrderedDict as its entries in insertion order. */
  type Dict = seq<(Key, Value)>

  function Keys(d: Dict): (ks: seq<Key>)
    ensures |ks| == |d| && forall i :: 0 <= i < |d| ==> ks[i] == d[i].0
  {
    if d == [] then [] else [d[0].0] + Keys(d[1..])
  }

  function Values(d: Dict): (vs: seq<Value>)
    ensures |vs| == |d| && forall i :: 0 <= i < |d| ==> vs[i] == d[i].1
  {
    if d == [] then [] else [d[0].1] + Values(d[1..])
  }

  /** No key occurs twice. */
  predicate Distinct(ks: seq<Key>)
  {
    ks == [] || (ks[0] !in ks[1..] && Distinct(ks[1..]))
  }

  predicate DistinctKeys(d: Dict)
  {
    Distinct(Keys(d))
  }

  lemma {:induction false} DistinctIndexOf(ks: seq<Key>, i: nat)
    requires Distinct(ks) && i < |ks|
    ensures IndexOf(ks, ks[i]) == i
  {
    if i > 0 {
      assert ks[i] == ks[1..][i - 1];
      DistinctIndexOf(ks[1..], i - 1);
    }
  }

  lemma {:induction false} DistinctAppend(ks: seq<Key>, k: Key)
    requires Distinct(ks) && k !in ks
    ensures Distinct(ks + [k])
  {
    if ks != [] {
      assert (ks + [k])[1..] == ks[1..] + [k];
      DistinctAppend(ks[1..], k);
    }
  }

  /** The position of the first occurrence of `k`. */
  function IndexOf(ks: seq<Key>, k: Key): (i: nat)
    requires k in ks
    ensures i < |ks| && ks[i] == k && forall j :: 0 <= j < i ==> ks[j] != k
  {
    if ks[0] == k then 0 else 1 + IndexOf(ks[1..], k)
  }

  lemma {:induction false} IndexOfPrefix(ks: seq<Key>, extra: seq<Key>, k: Key)
    requires k in ks
    ensures IndexOf(ks + extra, k) == IndexOf(ks, k)
  {
    if ks[0] != k {
      assert (ks + extra)[1..] == ks[1..] + extra;
      IndexOfPrefix(ks[1..], extra, k);
    }
  }

  /** `d[k]`, reading the entry for `k`. */
  function Lookup(d: Dict, k: Key): (r: Option<Value>)
    ensures r.None? <==> k !in Keys(d)
    ensures r.Some? ==> (k, r.value) in d
  {
    if k in Keys(d) then Some(d[IndexOf(Keys(d), k)].1) else None
  }

  /** `d[k] = v`: replaces the value in place when `k` is present, otherwise appends. */
  function Assign(d: Dict, k: Key, v: Value): (r: Dict)
    ensures k in Keys(d) ==> r == d[IndexOf(Keys(d), k) := (k, v)]
    ensures k !in Keys(d) ==> r == d + [(k, v)]
  {
    if k in Keys(d) then d[IndexOf(Keys(d), k) := (k, v)] else d + [(k, v)]
  }

  /** After `d[k] = v`, `d[k]` is `v` and every other key reads as before. */
  lemma {:induction false} AssignLookup(d: Dict, k: Key, v: Value)
    ensures Lookup(Assign(d, k, v), k) == Some(v)
    ensures forall k' :: k' != k ==> Lookup(Assign(d, k, v), k') == Lookup(d, k')
  {
    var r := Assign(d, k, v);
    if k in Keys(d) {
      var i := IndexOf(Keys(d), k);
      assert Keys(r) == Keys(d);
      forall k' | k' != k && k' in Keys(d) ensures Lookup(r, k') == Lookup(d, k') {
        var j := IndexOf(Keys(d), k');
        assert j != i;
      }
    } else {
      assert Keys(r) == Keys(d) + [k];
      IndexOfLast(Keys(d), k);
      forall k' | k' != k ensures Lookup(r, k') == Lookup(d, k') {
        if k' in Keys(d) {
          IndexOfPrefix(Keys(d), [k], k');
        }
      }
    }
  }

  lemma {:induction false} IndexOfLast(ks: seq<Key>, k: Key)
    requires k !in ks
    ensures IndexOf(ks + [k], k) == |ks|
  {
    if ks != [] {
      assert (ks + [k])[1..] == ks[1..] + [k];
      IndexOfLast(ks[1..], k);
    }
  }

  /** `d[k] = v` keeps the keys of an ordered dictionary distinct. */
  lemma {:induction false} AssignDistinct(d: Dict, k: Key, v: Value)
    requires DistinctKeys(d)
    ensures DistinctKeys(Assign(d, k, v))
  {
    if k in Keys(d) {
      assert Keys(Assign(d, k, v)) == Keys(d);
    } else {
      assert Keys(Assign(d, k, v)) == Keys(d) + [k];
      DistinctAppend(Keys(d), k);
    }
  }

  /** `izip_longest(fields, args, fillvalue=None)`. */
  function ZipLongest(names: seq<Name>, args: seq<Value>): (pairs: seq<(Key, Value)>)
    decreases |names| + |args|
  {
    if names == [] && args == [] then []
    else
      var pair := (if names != [] then Named(names[0]) else NoneKey, if args != [] then args[0] else NoneValue);
      [pair] + ZipLongest(if names != [] then names[1..] else [], if args != [] then args[1..] else [])
  }

  /** The zip is as long as the longer input and pads the shorter one with None. */
  lemma {:induction false} ZipLongestAt(names: seq<Name>, args: seq<Value>)
    ensures var pairs := ZipLongest(names, args);
      |pairs| == (if |names| >= |args| then |names| else |args|) &&
      forall i :: 0 <= i < |pairs| ==>
        pairs[i] == (if i < |names| then Named(names[i]) else NoneKey, if i < |args| then args[i] else NoneValue)
    decreases |names| + |args|
  {
    if names != [] || args != [] {
      var ns := if names != [] then names[1..] else [];
      var rest := if args != [] then args[1..] else [];
      ZipLongestAt(ns, rest);
    }
  }

  /** The `for arg, value in ...: self._data[arg] = value` loop, as a left fold. */
  function Fill(d: Dict, pairs: seq<(Key, Value)>): Dict
    decreases |pairs|
  {
    if pairs == [] then d else Fill(Assign(d, pairs[0].0, pairs[0].1), pairs[1..])
  }

  /** The state of one instance: its layout, `_data`, and the attributes kept outside `_data`. */
  datatype Record = Record(layout: Layout, dict: Dict, attrs: map<Name, Value>)

  /** The state `BaseStruct.__init__(fileobj, *args)` leaves behind. */
  function Construct(layout: Layout, args: seq<Value>): Record
  {
    Record(layout, Fill([], ZipLongest(Names(layout), args)), map[])
  }

  /** A record as the codec keeps it: no attribute outside `_data` shadows a declared field. */
  predicate Valid(r: Record)
  {
    forall name :: name in r.attrs ==> name !in Names(r.layout)
  }

  /** `BaseStruct.__init__`: fills the ordered dictionary one pair at a time. */
  method Build(layout: Layout, args: seq<Value>) returns (r: Record)
    ensures r == Construct(layout, args)
  {
    var pairs := ZipLongest(Names(layout), args);
    var d: Dict := [];
    var k := 0;
    while k < |pairs|
      invariant 0 <= k <= |pairs|
      invariant Fill(d, pairs[k..]) == Fill([], pairs)
    {
      assert pairs[k..][1..] == pairs[k + 1..];
      d := Assign(d, pairs[k].0, pairs[k].1);
      k := k + 1;
    }
    r := Record(layout, d, map[]);
  }

  /** Storing pairs whose keys are new, pairwise and against `d`, appends them in order. */
  lemma {:induction false} FillFresh(d: Dict, pairs: seq<(Key, Value)>)
    requires DistinctKeys(d + pairs)
    ensures Fill(d, pairs) == d + pairs
    decreases |pairs|
  {
    if pairs != [] {
      var d' := d + [pairs[0]];
      assert d' + pairs[1..] == d + pairs;
      KeysConcat(d, pairs);
      DistinctSplit(Keys(d), Keys(pairs));
      assert Assign(d, pairs[0].0, pairs[0].1) == d';
      FillFresh(d', pairs[1..]);
    }
  }

  lemma {:induction false} KeysConcat(a: Dict, b: Dict)
    ensures Keys(a + b) == Keys(a) + Keys(b)
  {
  }

  /** In a distinct concatenation, the first key of the second part is not in the first. */
  lemma {:induction false} DistinctSplit(a: seq<Key>, b: seq<Key>)
    requires b != [] && Distinct(a + b)
    ensures b[0] !in a
  {
    if a != [] {
      assert (a + b)[1..] == a[1..] + b;
      DistinctSplit(a[1..], b);
    }
  }

  /** `n` copies of None: `izip_longest`'s fill value for fields without an argument. */
  function Nones(n: nat): (vs: seq<Value>)
    ensures |vs| == n && forall i :: 0 <= i < n ==> vs[i] == NoneValue
  {
    if n == 0 then [] else [NoneValue] + Nones(n - 1)
  }

  /** The keys of a dictionary that holds exactly the declared fields, in order. */
  function NamedKeys(layout: Layout): (ks: seq<Key>)
    ensures |ks| == |layout| && forall i :: 0 <= i < |layout| ==> ks[i] == Named(layout[i].name)
  {
    if layout == [] then [] else [Named(layout[0].name)] + NamedKeys(layout[1..])
  }

  /** Entries keyed by the declared fields, one each, in declaration order. */
  predicate FieldPairs(layout: Layout, d: Dict)
  {
    |d| == |layout| && forall i :: 0 <= i < |d| ==> d[i].0 == Named(layout[i].name)
  }

  lemma {:induction false} FieldPairsKeys(layout: Layout, d: Dict)
    requires FieldPairs(layout, d)
    ensures Keys(d) == NamedKeys(layout)
  {
  }

  lemma {:induction false} FieldPairsDistinct(layout: Layout, d: Dict)
    requires WellFormed(layout) && FieldPairs(layout, d)
    ensures DistinctKeys(d) && NoneKey !in Keys(d)
  {
    FieldPairsKeys(layout, d);
    WellFormedDistinct(layout);
  }

  lemma {:induction false} ValuesAre(d: Dict, vals: seq<Value>)
    requires |d| == |vals| && forall i :: 0 <= i < |d| ==> d[i].1 == vals[i]
    ensures Values(d) == vals
  {
  }

  /** Filling an empty dictionary with distinct keys keeps the pairs as they are. */
  lemma {:induction false} FillEmpty(pairs: Dict)
    requires DistinctKeys(pairs)
    ensures Fill([], pairs) == pairs
  {
    assert [] + pairs == pairs;
    FillFresh([], pairs);
  }

  /**
   * With no more values than fields, every declared field becomes a key in
   * declaration order; the first values fill the first fields and the
   * remaining fields hold None.
   */
  lemma {:induction false} ConstructFields(layout: Layout, args: seq<Value>)
    requires WellFormed(layout) && |args| <= |layout|
    ensures Keys(Construct(layout, args).dict) == NamedKeys(layout)
    ensures Values(Construct(layout, args).dict) == args + Nones(|layout| - |args|)
    ensures DistinctKeys(Construct(layout, args).dict)
  {
    var pairs := ZipLongest(Names(layout), args);
    ZipLongestAt(Names(layout), args);
    assert FieldPairs(layout, pairs);
    FieldPairsKeys(layout, pairs);
    FieldPairsDistinct(layout, pairs);
    var fill := args + Nones(|layout| - |args|);
    assert forall i :: 0 <= i < |pairs| ==> pairs[i].1 == fill[i];
    ValuesAre(pairs, fill);
    FillEmpty(pairs);
  }

  /** With exactly one value per field, the values are the arguments in field order. */
  lemma {:induction false} ConstructExact(layout: Layout, vals: seq<Value>)
    requires WellFormed(layout) && |vals| == |layout|
    ensures DistinctKeys(Construct(layout, vals).dict)
    ensures Keys(Construct(layout, vals).dict) == NamedKeys(layout)
    ensures Values(Construct(layout, vals).dict) == vals
  {
    ConstructFields(layout, vals);
    assert vals + Nones(0) == vals;
  }

  /**
   * `cls.parse(fileobj)` at cursor `pos`: reads `_struct.size` bytes and
   * binds the unpacked values to the fields, returning the record and the
   * new cursor. Fails when fewer bytes remain.
   */
  function Parse(layout: Layout, file: seq<byte>, pos: nat): (r: Result<(Record, nat)>)
    ensures r.Ok? <==> pos + StructSize(layout) <= |file| || StructSize(layout) == 0
    ensures r.Err? ==> r.error == StructError
    ensures r.Ok? ==> r.value.1 == pos + StructSize(layout)
  {
    var bs := Read(file, pos, StructSize(layout));
    var vals :- Unpack(layout, bs);
    Ok((Construct(layout, vals), pos + |bs|))
  }

  /** `raw`: packs the values of `_data` in their dictionary order. */
  function Raw(r: Record): Result<seq<byte>>
  {
    Pack(r.layout, Values(r.dict))
  }

  /** The field values of a parsed record are the decoded bytes, in declaration order. */
  lemma {:induction false} ParsedFields(layout: Layout, file: seq<byte>, pos: nat)
    requires WellFormed(layout) && pos + StructSize(layout) <= |file|
    ensures var rec := Parse(layout, file, pos).value.0;
      rec.layout == layout && DistinctKeys(rec.dict) && Valid(rec) && Keys(rec.dict) == NamedKeys(layout) &&
      Values(rec.dict) == DecodeAll(layout, file[pos..pos + StructSize(layout)])
  {
    ParseValue(layout, file, pos);
    ConstructExact(layout, DecodeAll(layout, file[pos..pos + StructSize(layout)]));
  }

  /** An unmodified parsed record re-encodes to exactly the bytes it was parsed from. */
  lemma {:induction false} RawOfParsed(layout: Layout, file: seq<byte>, pos: nat)
    requires WellFormed(layout) && pos + StructSize(layout) <= |file|
    ensures Raw(Parse(layout, file, pos).value.0) == Ok(file[pos..pos + StructSize(layout)])
  {
    ParseValue(layout, file, pos);
    RawOfDecoded(layout, file[pos..pos + StructSize(layout)]);
  }

  /** With enough bytes, parsing builds the record of the decoded values. */
  lemma {:induction false} ParseValue(layout: Layout, file: seq<byte>, pos: nat)
    requires pos + StructSize(layout) <= |file|
    ensures Parse(layout, file, pos).Ok?
    ensures Parse(layout, file, pos).value.0 == Construct(layout, DecodeAll(layout, file[pos..pos + StructSize(layout)]))
  {
    ReadExact(file, pos, StructSize(layout));
    UnpackExact(layout, file[pos..pos + StructSize(layout)]);
  }

  lemma {:induction false} ReadExact(file: seq<byte>, pos: nat, n: nat)
    requires pos + n <= |file|
    ensures Read(file, pos, n) == file[pos..pos + n]
  {
  }

  lemma {:induction false} UnpackExact(layout: Layout, bs: seq<byte>)
    requires |bs| == StructSize(layout)
    ensures Unpack(layout, bs) == Ok(DecodeAll(layout, bs))
  {
  }

  /** The record built from decoded bytes packs back to those bytes. */
  lemma {:induction false} RawOfDecoded(layout: Layout, bs: seq<byte>)
    requires WellFormed(layout) && |bs| == StructSize(layout)
    ensures Raw(Construct(layout, DecodeAll(layout, bs))) == Ok(bs)
  {
    RawOfConstruct(layout, DecodeAll(layout, bs));
    PackOfUnpack(layout, bs);
  }

  /** A record constructed with one value per field packs exactly those values. */
  lemma {:induction false} RawOfConstruct(layout: Layout, vals: seq<Value>)
    requires WellFormed(layout) && |vals| == |layout|
    ensures Raw(Construct(layout, vals)) == Pack(layout, vals)
  {
    ConstructExact(layout, vals);
  }

  /**
   * `__getattr__` after Python's ordinary lookup: an instance attribute if
   * one was set, otherwise a declared field's value from `_data`, otherwise
   * AttributeError.
   */
  function GetAttr(r: Record, name: Name): (v: Result<Value>)
    ensures name !in r.attrs && name !in Names(r.layout) ==> v == Err(AttributeError(name))
    ensures name !in r.attrs && name in Names(r.layout) && Named(name) in Keys(r.dict) ==>
      v.Ok? && (Named(name), v.value) in r.dict
  {
    if name in r.attrs then Ok(r.attrs[name])
    else if name in Names(r.layout) then
      match Lookup(r.dict, Named(name))
      case Some(v) => Ok(v)
      case None => Err(KeyError)
    else Err(AttributeError(name))
  }

  /**
   * `__setattr__`: a declared field is updated inside `_data`, any other
   * name becomes an attribute outside it.
   */
  function SetAttr(r: Record, name: Name, v: Value): (r': Record)
    requires Valid(r)
    ensures Valid(r') && r'.layout == r.layout
    ensures GetAttr(r', name) == Ok(v)
    ensures name in Names(r.layout) ==> r'.attrs == r.attrs
    ensures name !in Names(r.layout) ==> r'.dict == r.dict
  {
    if name in Names(r.layout) then
      AssignLookup(r.dict, Named(name), v);
      r.(dict := Assign(r.dict, Named(name), v))
    else r.(attrs := r.attrs[name := v])
  }

  /** Setting one attribute leaves every other attribute reading as before. */
  lemma {:induction false} SetAttrFrame(r: Record, name: Name, v: Value, other: Name)
    requires Valid(r) && other != name
    ensures GetAttr(SetAttr(r, name, v), other) == GetAttr(r, other)
  {
    if name in Names(r.layout) {
      AssignLookup(r.dict, Named(name), v);
    }
  }

  /** Setting a name that is not a declared field leaves the packed bytes unchanged. */
  lemma {:induction false} SetUndeclaredKeepsRaw(r: Record, name: Name, v: Value)
    requires Valid(r) && name !in Names(r.layout)
    ensures Raw(SetAttr(r, name, v)) == Raw(r)
  {
    assert SetAttr(r, name, v).dict == r.dict;
  }

  /** In a layout with distinct names, field `i` is first found at position `i`. */
  lemma {:induction false} FieldPosition(layout: Layout, i: nat)
    requires WellFormed(layout) && i < |layout|
    ensures Named(layout[i].name) in NamedKeys(layout)
    ensures IndexOf(NamedKeys(layout), Named(layout[i].name)) == i
  {
    WellFormedDistinct(layout);
    DistinctIndexOf(NamedKeys(layout), i);
  }

  /** A record whose dictionary holds exactly its declared fields, in declaration order. */
  predicate Shaped(r: Record)
  {
    Valid(r) && WellFormed(r.layout) && Keys(r.dict) == NamedKeys(r.layout)
  }

  /** In a shaped record, reading field `i` gives the `i`-th value of `_data`. */
  lemma {:induction false} FieldValue(r: Record, i: nat)
    requires Shaped(r) && i < |r.layout|
    ensures GetAttr(r, r.layout[i].name) == Ok(Values(r.dict)[i])
  {
    FieldPosition(r.layout, i);
    assert r.layout[i].name in Names(r.layout);
  }

  /** Replacing the value at one position keeps the keys and changes only that value. */
  lemma {:induction false} UpdateValue(d: Dict, i: nat, v: Value)
    requires i < |d|
    ensures Keys(d[i := (d[i].0, v)]) == Keys(d)
    ensures Values(d[i := (d[i].0, v)]) == Values(d)[i := v]
  {
  }

  /** Setting a declared field stores the value in `_data`. */
  lemma {:induction false} SetFieldDict(r: Record, name: Name, v: Value)
    requires Valid(r) && name in Names(r.layout)
    ensures SetAttr(r, name, v).dict == Assign(r.dict, Named(name), v)
  {
  }

  /** Setting a declared field changes only that field's value and keeps the field order. */
  lemma {:induction false} SetFieldKeepsOrder(r: Record, i: nat, v: Value)
    requires Valid(r) && WellFormed(r.layout) && i < |r.layout| && Keys(r.dict) == NamedKeys(r.layout)
    ensures var r' := SetAttr(r, r.layout[i].name, v);
      Keys(r'.dict) == Keys(r.dict) &&
      Values(r'.dict) == Values(r.dict)[i := v]
  {
    var name := r.layout[i].name;
    FieldPosition(r.layout, i);
    assert name in Names(r.layout);
    SetFieldDict(r, name, v);
    assert r.dict[i].0 == Named(name);
    UpdateValue(r.dict, i, v);
  }

  /** Python truthiness of a value. */
  predicate Truthy(v: Value)
  {
    match v
    case NoneValue => false
    case Int(i) => i != 0
    case Str(s) => s != []
    case Bool(b) => b
  }

  /** Python `==` between two values: numbers compare by value, bool counting as 0 or 1. */
  predicate PyEq(a: Value, b: Value)
  {
    match (a, b)
    case (NoneValue, NoneValue) => true
    case (Str(x), Str(y)) => x == y
    case (Int(x), Int(y)) => x == y
    case (Bool(x), Bool(y)) => x == y
    case (Int(x), Bool(y)) => x == (if y then 1 else 0)
    case (Bool(x), Int(y)) => y == (if x then 1 else 0)
    case _ => false
  }

  /** The byte offset of field `i`: the widths of the fields before it. */
  function FieldOffset(layout: Layout, i: nat): nat
    requires i <= |layout|
  {
    StructSize(layout[..i])
  }

  /** Field `i` is decoded from its own bytes, which start at its offset. */
  lemma {:induction false} DecodeAllAt(layout: Layout, bs: seq<byte>, i: nat)
    requires |bs| == StructSize(layout) && i < |layout|
    ensures FieldOffset(layout, i) + Width(layout[i].kind) <= |bs|
    ensures DecodeAll(layout, bs)[i] ==
      DecodeField(layout[i].kind, bs[FieldOffset(layout, i)..FieldOffset(layout, i) + Width(layout[i].kind)])
  {
    var w := Width(layout[0].kind);
    if i == 0 {
      assert layout[..0] == [];
    } else {
      assert layout[..i][0] == layout[0] && layout[..i][1..] == layout[1..][..i - 1];
      DecodeAllAt(layout[1..], bs[w..], i - 1);
      assert bs[w..][FieldOffset(layout[1..], i - 1)..FieldOffset(layout[1..], i - 1) + Width(layout[i].kind)] ==
        bs[FieldOffset(layout, i)..FieldOffset(layout, i) + Width(layout[i].kind)];
    }
  }

  /** Each field starts where the one before it ends. */
  lemma {:induction false} FieldOffsetStep(l: Layout, i: nat)
    requires i < |l|
    ensures FieldOffset(l, i + 1) == FieldOffset(l, i) + Width(l[i].kind)
  {
    assert l[..i + 1] == l[..i] + [l[i]];
    StructSizeConcat(l[..i], [l[i]]);
    assert [l[i]][1..] == [];
  }

  /** Packing fails only with `struct.error`. */
  lemma {:induction false} EncodeFieldError(k: Kind, v: Value)
    ensures EncodeField(k, v).Err? ==> EncodeField(k, v).error == StructError
  {
  }

  /** A value the format refuses makes the whole pack fail. */
  lemma {:induction false} PackRefuses(layout: Layout, vals: seq<Value>, i: nat)
    requires |vals| == |layout| && i < |layout| && EncodeField(layout[i].kind, vals[i]).Err?
    ensures Pack(layout, vals) == Err(StructError)
  {
    EncodeAllRefuses(layout, vals, i);
  }

  lemma {:induction false} EncodeAllRefuses(layout: Layout, vals: seq<Value>, i: nat)
    requires |vals| == |layout| && i < |layout| && EncodeField(layout[i].kind, vals[i]).Err?
    ensures EncodeAll(layout, vals) == Err(StructError)
  {
    EncodeFieldError(layout[0].kind, vals[0]);
    if i > 0 && EncodeField(layout[0].kind, vals[0]).Ok? {
      assert layout[1..][i - 1] == layout[i] && vals[1..][i - 1] == vals[i];
      EncodeAllRefuses(layout[1..], vals[1..], i - 1);
    }
  }

  /** Every decoded value fits its field. */
  lemma {:induction false} DecodeAllFits(layout: Layout, bs: seq<byte>)
    requires |bs| == StructSize(layout)
    ensures forall i :: 0 <= i < |layout| ==> Fits(layout[i].kind, DecodeAll(layout, bs)[i])
  {
    forall i | 0 <= i < |layout|
      ensures Fits(layout[i].kind, DecodeAll(layout, bs)[i])
    {
      DecodeAllAt(layout, bs, i);
    }
  }
}
