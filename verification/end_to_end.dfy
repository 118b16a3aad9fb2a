/** How the proxy reads what the backend frames: the forwarded request is
    parsed the same way on both sides, and the status byte of the backend's
    reply decides what the proxy caches. */
module EndToEnd {
  import opened Wire
  import opened CacheModel
  import opened Server
  import opened Proxy

  /** The proxy decodes '3' (found) as 3, '4' (not found) as 4 and the
      database error as -1. */
  lemma DecodeFramedReply(status: int, result: string)
    requires status in {-1, 0, 1}
    ensures DecodeStatus(FrameReply(status, result)) == if status == 1 then 3 else if status == 0 then 4 else -1
  {
  }

  /** Forwarding a missed lookup to the backend: a found record is cached and
      its framed reply sent as is, a not-found reply is sent and not cached,
      and an unreadable database closes the client's session. */
  lemma OnlyFoundRecordsCached(s: CacheState, request: string, db: Database, stale: string)
    requires CacheModel.Valid(s) && |request| >= 2 && MessageType(request) in {1, 2}
    requires '\n' !in Key(request) && Server.WellFormed(db)
    requires !Exists(s, MessageType(request), Key(request))
    ensures var typ, key := MessageType(request), Key(request);
            var found := Search(db, key, typ, stale);
            var reply := FrameReply(found.status, found.text);
            Step(s, request, Replied(reply))
            == if db.Unreadable? then (Close, s)
               else if exists i :: 0 <= i < |db.lines| && Qualifies(db.lines[i], key, typ)
               then (Send(reply), Updated(s, key, reply, typ))
               else (Send(reply), s)
  {
    if db.Lines? {
      ScanStatus(db.lines, Key(request), MessageType(request), stale);
    }
  }

  /** The first qualifying line of the database decides what the proxy caches:
      the key paired with "3#" and that line's answer. */
  lemma CachedRecordComesFromFirstMatch(s: CacheState, request: string, lines: seq<string>, stale: string, i: nat)
    requires CacheModel.Valid(s) && |request| >= 2 && MessageType(request) in {1, 2}
    requires '\n' !in Key(request) && AllTerminated(lines)
    requires !Exists(s, MessageType(request), Key(request))
    requires i < |lines| && Qualifies(lines[i], Key(request), MessageType(request))
    requires forall j :: 0 <= j < i ==> !Qualifies(lines[j], Key(request), MessageType(request))
    ensures var typ, key := MessageType(request), Key(request);
            var reply := "3#" + Extract(lines[i], key, typ);
            var found := Search(Lines(lines), key, typ, stale);
            Step(s, request, Replied(FrameReply(found.status, found.text)))
            == (Send(reply), Updated(s, key, reply, typ))
  {
    ScanFindsFirst(lines, Key(request), MessageType(request), stale, i);
  }
}
