/** Push-notification gating and payload building of the "chat message"
    handler. Token validation belongs to the push provider's SDK and is a
    parameter here; chunking and sending are not part of this model. */
module Notify {
  import opened ChatTypes

  /** `{to, sound, body, data: {roomId, name}}`. */
  datatype PushPayload = PushPayload(to: string, sound: string, body: string, roomId: RoomId, name: string)

  /** The payload list handed to the provider: one payload for a token that
      passes validation, none otherwise. */
  function Payloads(isPushToken: string -> bool, deviceToken: string, message: string, to: RoomId, senderName: string): seq<PushPayload> {
    if isPushToken(deviceToken) then [PushPayload(deviceToken, "default", message, to, senderName)] else []
  }

  /** An invalid token yields no payload; a valid one yields exactly one,
      addressed to that token, with the message text as body, the default
      sound, and the target room and sender's name as data. */
  lemma NotificationGating(isPushToken: string -> bool, deviceToken: string, message: string, to: RoomId, senderName: string)
    ensures var ps := Payloads(isPushToken, deviceToken, message, to, senderName);
      && (|ps| == 0 <==> !isPushToken(deviceToken))
      && (isPushToken(deviceToken) ==>
            && |ps| == 1
            && ps[0].to == deviceToken
            && ps[0].sound == "default"
            && ps[0].body == message
            && ps[0].roomId == to
            && ps[0].name == senderName)
  {
  }
}
