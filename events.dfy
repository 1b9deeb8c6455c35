/** The shape of a DynamoDB Streams batch as the Lambda runtime hands it to the handler. */
module Events {

  /** A DynamoDB attribute value: its wire type and payload. `Zero` is Go's zero value of
      the attribute type, which is what indexing the image at a missing key yields. */
  datatype Attr =
    | Zero
    | S(s: string)
    | N(n: string)
    | BOOL(b: bool)
    | NULL

  /** The change carried by a stream record; only the image after the change is read. */
  datatype StreamRecord = StreamRecord(newImage: map<string, Attr>)

  /** One record of the batch: its event identifier, its event name and the change. */
  datatype Record = Record(eventId: string, eventName: string, change: StreamRecord)

  /** Go's `image[key]` on a map: the stored value, or the zero value when the key is absent. */
  function Lookup(image: map<string, Attr>, key: string): Attr
  {
    if key in image then image[key] else Zero
  }
}
