/** Objects of an asset store. */
module Assets {
  import opened Bytes

  datatype Object = Object(body: seq<byte>, contentType: string)

  type Objects = map<string, Object>
}
