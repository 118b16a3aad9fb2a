/** The request format `<digit>#<key>` that the client sends to the proxy and
    that the proxy forwards verbatim to the backend. Both programs parse it the
    same way: the type is the first byte minus '0', the key is everything from
    offset 2 to the end of the C string. */
module Wire {

  /** What C reads at index 0 of a string: its terminator when it is empty. */
  function FirstByte(s: string): char
  {
    if |s| == 0 then '\0' else s[0]
  }

  /** `buffer[0] - '0'`. */
  function MessageType(request: string): (t: int)
    ensures t == 0 <==> FirstByte(request) == '0'
    ensures t == 1 <==> FirstByte(request) == '1'
    ensures t == 2 <==> FirstByte(request) == '2'
  {
    FirstByte(request) as int - '0' as int
  }

  /** `buffer[2 .. strlen(buffer))`; shorter buffers make `strlen(buffer) - 2`
      wrap around in C, so they are excluded. */
  function Key(request: string): (key: string)
    requires |request| >= 2
    ensures |key| == |request| - 2 && request == request[..2] + key
  {
    request[2..]
  }

  /** The client's framing of a query: the type as one ASCII digit, '#', the key. */
  function Request(typ: int, key: string): (request: string)
    requires 0 <= typ <= 9
    ensures |request| == |key| + 2 && request[1] == '#'
  {
    [('0' as int + typ) as char, '#'] + key
  }

  /** Parsing undoes the client's framing. */
  lemma ParseRequest(typ: int, key: string)
    requires 0 <= typ <= 9
    ensures MessageType(Request(typ, key)) == typ
    ensures Key(Request(typ, key)) == key
  {
  }

  /** Every well-formed request is the framing of its own parse. */
  lemma RequestReassembles(request: string)
    requires |request| >= 2 && '0' <= request[0] <= '9' && request[1] == '#'
    ensures 0 <= MessageType(request) <= 9
    ensures Request(MessageType(request), Key(request)) == request
  {
  }
}
