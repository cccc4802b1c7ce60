/** The notifications the connection object posts to the activity's message handler. */
module Messages {

  /** Message codes of the activity's handler (MESSAGE_STATE_CHANGE and friends). */
  const MessageStateChange := 1
  const MessageReadComplete := 2
  const MessageDeviceName := 4
  const MessageToast := 5

  /** One posted message, in posting order. */
  datatype Notice =
    | StateChange(state: int)
    | ReadComplete
    | DeviceName(name: string)
    | Toast(text: string)
  {
    /**
      The handler's `what` code for this message. The codes tell the kinds
      apart, and none of them is the unused write-echo code 3.
    */
    function What(): (w: int)
      ensures w == MessageStateChange <==> StateChange?
      ensures w == MessageReadComplete <==> ReadComplete?
      ensures w == MessageDeviceName <==> DeviceName?
      ensures w == MessageToast <==> Toast?
      ensures w != 3
    {
      match this
      case StateChange(_) => MessageStateChange
      case ReadComplete => MessageReadComplete
      case DeviceName(_) => MessageDeviceName
      case Toast(_) => MessageToast
    }
  }
}
