/** What a session holds: a map from keys to serialized values. */
module SessionValues {
  import opened Wrappers

  type UserId = int
  type Hash = seq<int>

  /** The auth datum of a session; the default has neither part. */
  datatype Data = Data(userId: Option<UserId>, authHash: Option<Hash>)

  const DEFAULT_DATA := Data(None, None)

  datatype FlashMessage = FlashMessage(level: string, content: string)

  /**
   A serialized value, by the type it deserializes as: reading back a value that
   was written as that type gives it again, and any other text is an error.
   */
  datatype Value =
    | AuthData(data: Data)
    | Messages(messages: seq<FlashMessage>)
    | Text(text: string)

  type State = map<string, Value>
}
