/**
 * The attribute names the modelled records use. Each constructor is the
 * Python identifier written in CamelCase, spelling kept as declared (so the
 * header's `index_offfset2` keeps its three f's, and the two spellings
 * `instance2_id` and `instance_id2` are two different names).
 */
module FieldNames {

  datatype Name =
    // the DBPF header
    | Magic | VersionMajor | VersionMinor | UserVersionMajor | UserVersionMinor
    | Flags | Ctime | Mtime | IndexVersionMajor
    | IndexCount | IndexOffset | IndexSize
    | HolesCount | HolesOffset | HolesSize
    | IndexVersionMinor | IndexOfffset2 | Unknown | Reserved
    // index, hole and directory records
    | TypeId | GroupId | InstanceId | Instance2Id | InstanceId2 | Location | Size
    // the flag kept outside the declared fields of an index record
    | Compressed
    // FSH records
    | FileSize | EntryCount | DirectoryId | EntryName | Offset
    | RecordId | Size1 | Size2 | Size3 | Width | Height
    | XCenter | YCenter | XLeft | YTop
    // S3D records
    | VertexGroups | VerticesPerGroup | Format
    // properties computed from two declared fields
    | Version | UserVersion | IndexVersion
}
