/** The backend directory service: the line scan of `search_database` and the
    per-connection request handling and reply framing of its accept loop. The
    database file is a sequence of lines, each ending in '\n' as `getline`
    returns them; a file that cannot be opened is `Unreadable`. */
module Server {
  import opened Strings
  import opened Wire

  const NotFound := "Entry Not Found"
  /** The fixed reply sent when the database cannot be opened (spelling as sent). */
  const DatabaseError := "-#Database corrputed"

  datatype Database = Unreadable | Lines(lines: seq<string>)

  /** `db_status` and the contents of the `queried_object` buffer. */
  datatype Lookup = Lookup(status: int, text: string)

  /** What the backend does with one accepted connection. */
  datatype ServerAction =
    | Shutdown                                   // leaves the accept loop without replying
    | Respond(reply: string, thenShutdown: bool)  // sends `reply`, then stops or keeps accepting

  predicate Terminated(line: string)
  {
    |line| > 0 && line[|line| - 1] == '\n'
  }

  predicate AllTerminated(lines: seq<string>)
  {
    forall i :: 0 <= i < |lines| ==> Terminated(lines[i])
  }

  predicate WellFormed(db: Database)
  {
    db.Lines? ==> AllTerminated(db.lines)
  }

  /** A line answers the query when the first occurrence of the key is at the
      start (forward, type 1) or anywhere else (reverse, type 2). */
  predicate Qualifies(line: string, key: string, typ: int)
    ensures Qualifies(line, key, typ)
            <==> (typ == 1 && OccursAt(line, key, 0))
                 || (typ == 2 && (exists q :: OccursAt(line, key, q)) && !OccursAt(line, key, 0))
  {
    var p := FindFirst(line, key);
    p.Some? && ((p.value == 0 && typ == 1) || (p.value != 0 && typ == 2))
  }

  /** The answer copied out of a qualifying line: `strlen(line) - strlen(key) - 1`
      bytes, taken after the key for a forward query and from the start of the
      line for a reverse query. */
  function Extract(line: string, key: string, typ: int): (r: string)
    requires Terminated(line) && '\n' !in key && Qualifies(line, key, typ)
    ensures |r| == |line| - |key| - 1
    ensures typ == 1 ==> line == key + r + "\n"
    ensures typ == 2 ==> r <= line
  {
    if typ == 1 then
      assert line == line[..|key|] + line[|key|..|line| - 1] + [line[|line| - 1]];
      line[|key|..|line| - 1]
    else
      line[..|line| - |key| - 1]
  }

  /** Reference definition of the scan from a given line on, with `current`
      the buffer contents so far. A line without the key overwrites the buffer
      with "Entry Not Found"; a line holding the key in the wrong place leaves
      it alone. */
  function Scan(lines: seq<string>, key: string, typ: int, current: string): (r: Lookup)
    requires AllTerminated(lines) && '\n' !in key
    ensures r.status in {0, 1}
    ensures r.status == 1 <==> exists i :: 0 <= i < |lines| && Qualifies(lines[i], key, typ)
    decreases |lines|
  {
    if |lines| == 0 then Lookup(0, current)
    else if Qualifies(lines[0], key, typ) then Lookup(1, Extract(lines[0], key, typ))
    else Scan(lines[1..], key, typ, if FindFirst(lines[0], key).None? then NotFound else current)
  }

  /** Reference definition of `search_database`; `stale` is what the freshly
      allocated `queried_object` buffer held before the call. */
  function Search(db: Database, key: string, typ: int, stale: string): (r: Lookup)
    requires WellFormed(db) && '\n' !in key
    ensures r.status == -1 <==> db.Unreadable?
    ensures r.status in {-1, 0, 1}
  {
    match db
    case Unreadable => Lookup(-1, stale)
    case Lines(lines) => Scan(lines, key, typ, stale)
  }

  /** `search_database`: scans the lines top to bottom and stops at the first
      qualifying one. */
  method SearchDatabase(db: Database, key: string, typ: int, stale: string)
    returns (status: int, result: string)
    requires WellFormed(db) && '\n' !in key
    ensures Lookup(status, result) == Search(db, key, typ, stale)
  {
    if db.Unreadable? {
      return -1, stale;
    }
    var lines := db.lines;
    status, result := 0, stale;
    var i := 0;
    while i < |lines|
      invariant 0 <= i <= |lines|
      invariant Scan(lines[i..], key, typ, result) == Scan(lines, key, typ, stale)
    {
      var line := lines[i];
      assert lines[i..][0] == line && lines[i..][1..] == lines[i + 1..];
      var occurrence := FindFirst(line, key);
      if occurrence.Some? {
        var found := false;
        if occurrence.value == 0 && typ == 1 {
          result := line[|key|..|line| - 1];
          found := true;
        } else if occurrence.value != 0 && typ == 2 {
          result := line[..|line| - |key| - 1];
          found := true;
        }
        if found {
          status := 1;
          return;
        }
      } else {
        result := NotFound;
      }
      i := i + 1;
    }
  }

  /** The first qualifying line decides the answer, whatever comes before it. */
  lemma {:induction false} ScanFindsFirst(lines: seq<string>, key: string, typ: int, current: string, i: nat)
    requires AllTerminated(lines) && '\n' !in key
    requires i < |lines| && Qualifies(lines[i], key, typ)
    requires forall j :: 0 <= j < i ==> !Qualifies(lines[j], key, typ)
    ensures Scan(lines, key, typ, current) == Lookup(1, Extract(lines[i], key, typ))
  {
    if i > 0 {
      assert !Qualifies(lines[0], key, typ);
      var next := if FindFirst(lines[0], key).None? then NotFound else current;
      ScanFindsFirst(lines[1..], key, typ, next, i - 1);
    }
  }

  /** Found iff some line qualifies. */
  lemma {:induction false} ScanStatus(lines: seq<string>, key: string, typ: int, current: string)
    requires AllTerminated(lines) && '\n' !in key
    ensures Scan(lines, key, typ, current).status == 1
            <==> exists i :: 0 <= i < |lines| && Qualifies(lines[i], key, typ)
  {
    if |lines| > 0 && !Qualifies(lines[0], key, typ) {
      var next := if FindFirst(lines[0], key).None? then NotFound else current;
      ScanStatus(lines[1..], key, typ, next);
      assert forall i :: 1 <= i < |lines| ==> lines[i] == lines[1..][i - 1];
    }
  }

  /** When no line qualifies the result is "Entry Not Found" as soon as one
      line lacks the key, and otherwise the buffer is left as it was. */
  lemma {:induction false} ScanNotFound(lines: seq<string>, key: string, typ: int, current: string)
    requires AllTerminated(lines) && '\n' !in key
    requires forall i :: 0 <= i < |lines| ==> !Qualifies(lines[i], key, typ)
    ensures Scan(lines, key, typ, current)
            == Lookup(0, if exists i :: 0 <= i < |lines| && FindFirst(lines[i], key).None?
                         then NotFound else current)
  {
    if |lines| > 0 {
      var next := if FindFirst(lines[0], key).None? then NotFound else current;
      assert forall i :: 1 <= i < |lines| ==> lines[i] == lines[1..][i - 1];
      ScanNotFound(lines[1..], key, typ, next);
      if FindFirst(lines[0], key).None? {
        if exists i :: 1 <= i < |lines| && FindFirst(lines[i], key).None? {
        }
      } else {
        if exists i :: 0 <= i < |lines| && FindFirst(lines[i], key).None? {
          var i :| 0 <= i < |lines| && FindFirst(lines[i], key).None?;
          assert i >= 1 && FindFirst(lines[1..][i - 1], key).None?;
        }
      }
    }
  }

  /** Lines after the first qualifying one are never looked at: appending
      lines to the database does not change the answer. */
  lemma {:induction false} ScanStopsAtFirstMatch(lines: seq<string>, rest: seq<string>, key: string, typ: int, current: string)
    requires AllTerminated(lines) && AllTerminated(rest) && '\n' !in key
    requires exists i :: 0 <= i < |lines| && Qualifies(lines[i], key, typ)
    ensures AllTerminated(lines + rest)
    ensures Scan(lines + rest, key, typ, current) == Scan(lines, key, typ, current)
  {
    assert (lines + rest)[0] == lines[0];
    if !Qualifies(lines[0], key, typ) {
      var i :| 0 <= i < |lines| && Qualifies(lines[i], key, typ);
      assert lines[1..][i - 1] == lines[i];
      assert (lines + rest)[1..] == lines[1..] + rest;
      var next := if FindFirst(lines[0], key).None? then NotFound else current;
      ScanStopsAtFirstMatch(lines[1..], rest, key, typ, next);
    }
  }

  /** A line made of the key followed by an answer yields that answer to a
      forward query. */
  lemma ForwardLineAnswer(key: string, answer: string)
    requires '\n' !in key
    ensures Terminated(key + answer + "\n") && Qualifies(key + answer + "\n", key, 1)
    ensures Extract(key + answer + "\n", key, 1) == answer
  {
  }

  /** A line made of an answer followed by the key yields that answer to a
      reverse query, provided the key does not also occur at the very start. */
  lemma ReverseLineAnswer(answer: string, key: string)
    requires '\n' !in key && !OccursAt(answer + key + "\n", key, 0)
    ensures Terminated(answer + key + "\n") && Qualifies(answer + key + "\n", key, 2)
    ensures Extract(answer + key + "\n", key, 2) == answer
  {
    var line := answer + key + "\n";
    assert OccursAt(line, key, |answer|) by {
      assert line[|answer|..|answer| + |key|] == key;
    }
    var r := Extract(line, key, 2);
    assert r == line[..|answer|];
  }

  /** The reply to the proxy: the status byte `'4' - status`, '#', the result;
      or the fixed error string when the database could not be opened. */
  function FrameReply(status: int, result: string): (reply: string)
    requires status in {-1, 0, 1}
    ensures status == -1 ==> reply == DatabaseError
    ensures |reply| >= 2 && reply[1] == '#'
    ensures reply[0] == (if status == 1 then '3' else if status == 0 then '4' else '-')
    ensures status != -1 ==> reply[2..] == result
  {
    if status == -1 then DatabaseError
    else [('4' as int - status) as char, '#'] + result
  }

  /** One accepted connection: parse `<digit>#<key>`, stop on any type but 1
      or 2, search, and either reply or report the unreadable database and stop.
      `stale` is what the freshly allocated `queried_object` buffer held. */
  method HandleConnection(request: string, db: Database, stale: string) returns (action: ServerAction)
    requires |request| >= 2 && WellFormed(db)
    requires MessageType(request) in {1, 2} ==> '\n' !in Key(request)
    ensures MessageType(request) !in {1, 2} ==> action == Shutdown
    ensures MessageType(request) in {1, 2} && db.Unreadable? ==> action == Respond(DatabaseError, true)
    ensures MessageType(request) in {1, 2} && db.Lines? ==>
              var found := Search(db, Key(request), MessageType(request), stale);
              found.status in {0, 1} && action == Respond(FrameReply(found.status, found.text), false)
  {
    var typ := MessageType(request);
    var key := Key(request);
    if typ != 1 && typ != 2 {
      return Shutdown;
    }
    var status, result := SearchDatabase(db, key, typ, stale);
    if status == -1 {
      return Respond(DatabaseError, true);
    }
    action := Respond(FrameReply(status, result), false);
  }
}
