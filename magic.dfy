/**
 * The type-id table that tells which handler class opens a payload, and
 * the lookup with its fallback.
 */
module MagicTable {
  import opened Wrappers
  import opened FieldNames
  import opened BaseStruct

  /** The payload handler classes; their own behaviour is not part of this model. */
  datatype Handler = FileHandler | XmlFile | S3dFile | ImageFile | FshFile

  /** The named tuple `T(type, description, cls)`. */
  datatype TypeInfo = T(tag: string, description: string, cls: Handler)

  /** The dictionary display, entry by entry in the order written, duplicates included. */
  const TidLiteral: seq<(int, TypeInfo)> := [
    (0xBADB57F1, T("S3D", "SimGlide 3D Model", S3dFile)),
    (0x1ABE787D, T("FSH", "Texture File", FshFile)),
    (0x0986135E, T("FSH", "Base and Overlay Lot Textures", FshFile)),
    (0x1ABE787D, T("FSH", "Transit Textures/Buildings/Bridges/Misc", FshFile)),
    (0x2BC2759A, T("FSH", "Transit Network Shadows (Masks)", FshFile)),
    (0x891B0E1A, T("FSH", "Terrain and Foundation", FshFile)),
    (0x49A593E7, T("FSH", "Animation Sprites (Non Props)", FshFile)),
    (0x2A2458F9, T("FSH", "Animation Sprites (Props)", FshFile)),
    (0x5AD0E187, T("S3D", "SimGlide 3D Model", S3dFile)),
    (0x7AB50E44, T("FSH", "Texture File", FshFile)),
    (0x88777601, T("XML", "XML File", XmlFile)),
    (0x74807101, T("JPEG", "Compressed Image File", ImageFile)),
    (0x74807102, T("JPEG", "Compressed Image File", ImageFile)),
    (0x66778001, T("BMP", "Bitmap Image File", ImageFile)),
    (0x66778002, T("BMP", "Bitmap Image File", ImageFile))
  ]

  /** A dictionary display evaluated left to right: a repeated key keeps the later value. */
  function DictOf(entries: seq<(int, TypeInfo)>): (m: map<int, TypeInfo>)
    ensures forall k :: k in m <==> exists i :: 0 <= i < |entries| && entries[i].0 == k
  {
    if entries == [] then map[]
    else
      var last := entries[|entries| - 1];
      var m := DictOf(entries[..|entries| - 1]);
      assert forall i :: 0 <= i < |entries| - 1 ==> entries[..|entries| - 1][i] == entries[i];
      m[last.0 := last.1]
  }

  /** `TID`. */
  const Tid: map<int, TypeInfo> := DictOf(TidLiteral)

  /** The handler `magic_index` falls back to. */
  const Fallback: TypeInfo := T("data", "can be everything", FileHandler)

  /** The type tag names the handler class. */
  predicate TagAgrees(t: TypeInfo)
  {
    (t.tag == "FSH" ==> t.cls == FshFile) &&
    (t.tag == "S3D" ==> t.cls == S3dFile) &&
    (t.tag == "XML" ==> t.cls == XmlFile) &&
    (t.tag == "JPEG" || t.tag == "BMP" ==> t.cls == ImageFile) &&
    (t.tag in ["FSH", "S3D", "XML", "JPEG", "BMP"])
  }

  lemma {:induction false} DictOfAgrees(entries: seq<(int, TypeInfo)>)
    requires forall i :: 0 <= i < |entries| ==> TagAgrees(entries[i].1)
    ensures forall k :: k in DictOf(entries) ==> TagAgrees(DictOf(entries)[k])
  {
    if entries != [] {
      DictOfAgrees(entries[..|entries| - 1]);
    }
  }

  /** Every table entry's type tag agrees with its handler class. */
  lemma {:induction false} TidTagsAgree()
    ensures forall k :: k in Tid ==> TagAgrees(Tid[k])
  {
    DictOfAgrees(TidLiteral);
  }

  /** The mixed-case literal 0x1ABE787D is the same key as 0x1abe787d, and the later entry wins. */
  lemma {:induction false} TidDuplicateKey()
    ensures 0x1ABE787D in Tid
    ensures Tid[0x1ABE787D] == T("FSH", "Transit Textures/Buildings/Bridges/Misc", FshFile)
  {
    var upto4 := TidLiteral[..4];
    assert DictOf(upto4)[0x1ABE787D] == T("FSH", "Transit Textures/Buildings/Bridges/Misc", FshFile);
    DictOfKeeps(TidLiteral, 4, 0x1ABE787D);
  }

  /** Entries after position `n` that do not repeat `k` leave its value alone. */
  lemma {:induction false} DictOfKeeps(entries: seq<(int, TypeInfo)>, n: nat, k: int)
    requires n <= |entries| && k in DictOf(entries[..n])
    requires forall i :: n <= i < |entries| ==> entries[i].0 != k
    ensures k in DictOf(entries) && DictOf(entries)[k] == DictOf(entries[..n])[k]
  {
    if n < |entries| {
      assert entries[..|entries| - 1][..n] == entries[..n];
      DictOfKeeps(entries[..|entries| - 1], n, k);
    } else {
      assert entries[..n] == entries;
    }
  }

  /** The dictionary key a field value hashes to, if any: a bool counts as 0 or 1. */
  function TidKey(v: Value): Option<int>
  {
    match v
    case Int(i) => Some(i)
    case Bool(b) => Some(if b then 1 else 0)
    case _ => None
  }

  /** `magic_index(index)`: the table entry for `type_id`, or the fallback. */
  function MagicIndex(r: Record): (t: Result<TypeInfo>)
    ensures GetAttr(r, TypeId).Err? ==> t == Err(GetAttr(r, TypeId).error)
  {
    var tid :- GetAttr(r, TypeId);
    match TidKey(tid)
    case Some(k) => if k in Tid then Ok(Tid[k]) else Ok(Fallback)
    case None => Ok(Fallback)
  }

  /** A known type id selects its table entry; any other value selects the fallback. */
  lemma {:induction false} MagicIndexLookup(r: Record, k: int)
    requires GetAttr(r, TypeId) == Ok(Int(k))
    ensures k in Tid ==> MagicIndex(r) == Ok(Tid[k])
    ensures k !in Tid ==> MagicIndex(r) == Ok(Fallback)
  {
  }

  /** The lookup depends on `type_id` alone. */
  lemma {:induction false} MagicIndexOnlyTypeId(r1: Record, r2: Record)
    requires GetAttr(r1, TypeId) == GetAttr(r2, TypeId)
    ensures MagicIndex(r1) == MagicIndex(r2)
  {
  }

  /** Whatever the record, a successful lookup names a handler whose tag agrees, or the fallback. */
  lemma {:induction false} MagicIndexAgrees(r: Record)
    requires MagicIndex(r).Ok?
    ensures TagAgrees(MagicIndex(r).value) || MagicIndex(r).value == Fallback
  {
    TidTagsAgree();
  }
}
