/**
 * Replies as they travel between the tracker module and the proxy: the
 * tracker builds them with the module API (`RedisValue`) and the proxy reads
 * them back as the client library's `Value`. Both sides see the same wire
 * shapes, so one datatype serves for both.
 */
module RedisValues {
  import opened Bytes

  datatype Reply =
    | Nil
    | Int(i: int)               // integer reply
    | Data(bytes: seq<byte>)    // bulk string, the tracker's `Buffer`
    | Bulk(items: seq<Reply>)   // array reply, the tracker's `Array`
    | Status(text: string)      // simple string
    | Okay
}
