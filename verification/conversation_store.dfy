/**
  The per-session conversation log: an in-memory map from session id to
  messages, mirrored file by file into a storage directory. The directory
  is a map from file name to what a read of that file yields; the session
  `sid` lives in the file `sid + ".json"`.
 */
module ConversationStore {
  import opened Wrappers
  import PySlice

  datatype Message = Message(role: string, content: string, timestamp: string, metadata: map<string, string>)

  /** A file of the storage directory: parseable messages, or content that fails to load. */
  datatype Record = Stored(messages: seq<Message>) | Unreadable

  datatype Store = Store(memory: map<string, seq<Message>>, disk: map<string, Record>)

  /**
    How a session write ends: the file is written; the file cannot be opened
    (it is left as it was); or opening truncated it and serialising failed
    part-way (it no longer loads). Every outcome is swallowed.
   */
  datatype WriteOutcome = Written | OpenFailed | DumpFailed

  /** The exception Python raises when `None` is sliced or measured. */
  datatype PyError = TypeError

  /** A result together with the store the call leaves behind. */
  datatype Reply<T> = Reply(store: Store, value: T)

  datatype Export = Export(sessionId: string, exportedAt: string, messageCount: nat, messages: seq<Message>)

  const Extension: string := ".json"

  function FileName(sid: string): string {
    sid + Extension
  }

  predicate HasExtension(f: string) {
    |f| >= |Extension| && f[|f| - |Extension|..] == Extension
  }

  /** `f[:-5]`: the file name without its extension. */
  function StripExtension(f: string): (sid: string)
    requires HasExtension(f)
    ensures FileName(sid) == f
  {
    f[..|f| - |Extension|]
  }

  lemma StripFileName(sid: string)
    ensures HasExtension(FileName(sid)) && StripExtension(FileName(sid)) == sid
  {
    assert FileName(sid)[..|sid|] == sid;
  }

  /** The in-memory messages of `sid`; `[]` when it has none. */
  function Cached(st: Store, sid: string): seq<Message> {
    if sid in st.memory then st.memory[sid] else []
  }

  /** `_save_session`: writes the in-memory sequence of `sid`, if any, to its file. */
  function Save(st: Store, sid: string, outcome: WriteOutcome): (st': Store)
    ensures st'.memory == st.memory
    ensures forall f :: f != FileName(sid) ==> (f in st'.disk <==> f in st.disk)
    ensures forall f :: f != FileName(sid) && f in st.disk ==> st'.disk[f] == st.disk[f]
    ensures sid in st.memory && outcome == Written ==> FileName(sid) in st'.disk && st'.disk[FileName(sid)] == Stored(st.memory[sid])
    ensures sid in st.memory && outcome == DumpFailed ==> FileName(sid) in st'.disk && st'.disk[FileName(sid)] == Unreadable
    ensures sid !in st.memory || outcome == OpenFailed ==> st'.disk == st.disk
  {
    if sid !in st.memory then st
    else match outcome
      case Written => st.(disk := st.disk[FileName(sid) := Stored(st.memory[sid])])
      case OpenFailed => st
      case DumpFailed => st.(disk := st.disk[FileName(sid) := Unreadable])
  }

  /** `_load_session`: the messages in the file of `sid`; `None` when it is missing or fails to load. */
  function Load(st: Store, sid: string): (r: Option<seq<Message>>)
    ensures r.Some? <==> FileName(sid) in st.disk && st.disk[FileName(sid)].Stored?
    ensures r.Some? ==> st.disk[FileName(sid)] == Stored(r.value)
  {
    if FileName(sid) in st.disk then
      match st.disk[FileName(sid)]
      case Stored(ms) => Some(ms)
      case Unreadable => None
    else None
  }

  /** The message `add_message` records; absent metadata becomes the empty map. */
  function NewMessage(role: string, content: string, metadata: Option<map<string, string>>, now: string): (m: Message)
    ensures m.role == role && m.content == content && m.timestamp == now
    ensures metadata.None? ==> m.metadata == map[]
    ensures metadata.Some? ==> m.metadata == metadata.value
  {
    Message(role, content, now, metadata.GetOr(map[]))
  }

  /**
    `add_message`: appends to the in-memory sequence of `sid` (an absent
    session starts empty: the file is not consulted), applies the history
    bound, then writes the session through to its file. A failed write
    leaves the in-memory update in place.
   */
  function AddMessage(st: Store, maxHistory: int, sid: string, role: string, content: string,
                      metadata: Option<map<string, string>>, now: string, outcome: WriteOutcome): (st': Store)
    ensures sid in st'.memory
    ensures var m := NewMessage(role, content, metadata, now);
      && (maxHistory == 0 ==> st'.memory[sid] == Cached(st, sid) + [m])
      && (maxHistory > 0 ==> st'.memory[sid] == PySlice.LastN(Cached(st, sid) + [m], maxHistory as nat))
      && (maxHistory >= 0 ==> |st'.memory[sid]| > 0 && st'.memory[sid][|st'.memory[sid]| - 1] == m)
    ensures maxHistory > 0 ==> |st'.memory[sid]| <= maxHistory
    ensures forall s :: s != sid ==> (s in st'.memory <==> s in st.memory)
    ensures forall s :: s != sid && s in st.memory ==> st'.memory[s] == st.memory[s]
    ensures outcome == Written ==> st'.disk == st.disk[FileName(sid) := Stored(st'.memory[sid])]
    ensures outcome == OpenFailed ==> st'.disk == st.disk
    ensures outcome == DumpFailed ==> st'.disk == st.disk[FileName(sid) := Unreadable]
  {
    var m := NewMessage(role, content, metadata, now);
    var kept := PySlice.KeepLast(Cached(st, sid) + [m], maxHistory);
    Save(st.(memory := st.memory[sid := kept]), sid, outcome)
  }

  /** What `get_conversation_history` sees before any limit: memory when non-empty, else the file. */
  function Visible(st: Store, sid: string): Option<seq<Message>> {
    if |Cached(st, sid)| > 0 then Some(Cached(st, sid)) else Load(st, sid)
  }

  /**
    `get_conversation_history`: the history of `sid`, loaded from its file
    (and cached when non-empty) on a memory miss. A `limit` other than
    `None` and `0` keeps the last `limit` messages (`[-limit:]`), and
    raises `TypeError` when there is no history at all to slice.
   */
  function History(st: Store, sid: string, limit: Option<int>): (r: Reply<Result<Option<seq<Message>>, PyError>>)
    ensures r.store.disk == st.disk
    ensures |Cached(st, sid)| > 0 ==> r.store == st
    ensures |Cached(st, sid)| == 0 && Load(st, sid).Some? && |Load(st, sid).value| > 0 ==>
      r.store.memory == st.memory[sid := Load(st, sid).value]
    ensures |Cached(st, sid)| == 0 && (Load(st, sid).None? || Load(st, sid) == Some([])) ==>
      r.store == st
    ensures limit.None? || limit == Some(0) ==> r.value == Success(Visible(st, sid))
    ensures limit.Some? && limit.value != 0 ==>
      match Visible(st, sid)
      case None => r.value == Failure(TypeError)
      case Some(h) => r.value.Success? && r.value.value.Some? && r.value.value.value == PySlice.Tail(h, limit.value)
    ensures limit.Some? && limit.value > 0 && Visible(st, sid).Some? ==>
      r.value.value.value == PySlice.LastN(Visible(st, sid).value, limit.value as nat)
  {
    var cached := Cached(st, sid);
    var history := if |cached| > 0 then Some(cached) else Load(st, sid);
    var st' := if |cached| == 0 && history.Some? && |history.value| > 0
      then st.(memory := st.memory[sid := history.value]) else st;
    if limit.Some? && limit.value != 0 then
      match history
      case None => Reply(st', Failure(TypeError))
      case Some(h) => Reply(st', Success(Some(PySlice.Tail(h, limit.value))))
    else Reply(st', Success(history))
  }

  /**
    `get_context_messages`: the last `limit` messages of the history
    (`[-limit:]`, so `0` keeps all), or `[]` when there is none.
   */
  function ContextMessages(st: Store, sid: string, limit: int): (r: Reply<seq<Message>>)
    ensures r.store == History(st, sid, None).store
    ensures Visible(st, sid).None? || Visible(st, sid) == Some([]) ==> r.value == []
    ensures Visible(st, sid).Some? && limit > 0 ==> r.value == PySlice.LastN(Visible(st, sid).value, limit as nat)
    ensures Visible(st, sid).Some? && limit == 0 ==> r.value == Visible(st, sid).value
  {
    var reply := History(st, sid, None);
    match reply.value
    case Success(Some(h)) => Reply(reply.store, if |h| > 0 then PySlice.Tail(h, limit) else [])
    case _ => Reply(reply.store, [])
  }

  /** `clear_conversation`: forgets `sid` in memory and deletes its file; nothing else changes. */
  function Clear(st: Store, sid: string): (st': Store)
    ensures sid !in st'.memory && FileName(sid) !in st'.disk
    ensures forall s :: s != sid ==> (s in st'.memory <==> s in st.memory)
    ensures forall s :: s != sid && s in st.memory ==> st'.memory[s] == st.memory[s]
    ensures forall f :: f != FileName(sid) ==> (f in st'.disk <==> f in st.disk)
    ensures forall f :: f != FileName(sid) && f in st.disk ==> st'.disk[f] == st.disk[f]
  {
    Store(st.memory - {sid}, st.disk - {FileName(sid)})
  }

  /**
    `export_conversation`: the full history with its length and a time
    stamp. `len(None)` raises, so a session without history cannot be
    exported.
   */
  function ExportSession(st: Store, sid: string, now: string): (r: Reply<Result<Export, PyError>>)
    ensures r.store == History(st, sid, None).store
    ensures Visible(st, sid).None? ==> r.value == Failure(TypeError)
    ensures Visible(st, sid).Some? ==> (
      && r.value.Success?
      && r.value.value.messages == Visible(st, sid).value
      && r.value.value.messageCount == |r.value.value.messages|
      && r.value.value.sessionId == sid && r.value.value.exportedAt == now)
  {
    var reply := History(st, sid, None);
    match reply.value
    case Success(Some(h)) => Reply(reply.store, Success(Export(sid, now, |h|, h)))
    case _ => Reply(reply.store, Failure(TypeError))
  }

  /** The export with a missing history taken as empty: it always succeeds. */
  function ExportOrEmpty(st: Store, sid: string, now: string): (r: Reply<Export>)
    ensures r.store == History(st, sid, None).store
    ensures r.value.messageCount == |r.value.messages|
    ensures r.value.messages == Visible(st, sid).GetOr([])
    ensures r.value.sessionId == sid && r.value.exportedAt == now
    ensures ExportSession(st, sid, now).value.Success? ==> ExportSession(st, sid, now).value.value == r.value
  {
    var reply := History(st, sid, None);
    var h := match reply.value case Success(Some(h)) => h case _ => [];
    Reply(reply.store, Export(sid, now, |h|, h))
  }

  /**
    A session id whose file `sid + ".json"` sits directly in the storage
    directory. An id with a `/` names a path into a subdirectory or, through
    `..` or a leading `/`, out of the directory altogether.
   */
  predicate PlainId(sid: string) {
    '/' !in sid
  }

  /**
    `get_all_sessions`: the sessions in memory together with every `.json`
    entry listed directly in the directory, extension removed. Files of ids
    that are not plain do not appear among those entries.
   */
  function Sessions(st: Store): (ids: set<string>)
    ensures forall sid :: sid in ids <==> sid in st.memory || (PlainId(sid) && FileName(sid) in st.disk)
  {
    var onDisk := set f | f in st.disk && HasExtension(f) && '/' !in f :: StripExtension(f);
    assert forall sid :: PlainId(sid) && FileName(sid) in st.disk ==> sid in onDisk by {
      forall sid | PlainId(sid) && FileName(sid) in st.disk ensures sid in onDisk {
        StripFileName(sid);
        assert '/' !in Extension;
      }
    }
    assert forall sid :: sid in onDisk ==> PlainId(sid) && FileName(sid) in st.disk by {
      forall sid | sid in onDisk ensures PlainId(sid) && FileName(sid) in st.disk {
        var f :| f in st.disk && HasExtension(f) && '/' !in f && sid == StripExtension(f);
        assert forall i :: 0 <= i < |sid| ==> sid[i] == f[i];
      }
    }
    st.memory.Keys + onDisk
  }

  // ---------------------------------------------------------------------
  // Properties of the store
  // ---------------------------------------------------------------------

  lemma FileNameInjective(a: string, b: string)
    requires FileName(a) == FileName(b)
    ensures a == b
  {
    assert a == FileName(a)[..|a|];
    assert b == FileName(b)[..|b|];
  }

  /** Every in-memory session is on disk with exactly its in-memory messages. */
  ghost predicate Mirrored(st: Store) {
    forall sid :: sid in st.memory ==> FileName(sid) in st.disk && st.disk[FileName(sid)] == Stored(st.memory[sid])
  }

  /** While every write succeeds, the directory stays a mirror of memory. */
  lemma AddMessageKeepsMirror(st: Store, maxHistory: int, sid: string, role: string, content: string,
                              metadata: Option<map<string, string>>, now: string)
    requires Mirrored(st)
    ensures Mirrored(AddMessage(st, maxHistory, sid, role, content, metadata, now, Written))
  {
    var st' := AddMessage(st, maxHistory, sid, role, content, metadata, now, Written);
    forall s | s in st'.memory
      ensures FileName(s) in st'.disk && st'.disk[FileName(s)] == Stored(st'.memory[s])
    {
      if s != sid {
        if FileName(s) == FileName(sid) {
          FileNameInjective(s, sid);
        }
      }
    }
  }

  /** Reading caches only what the file holds, so it keeps the mirror. */
  lemma HistoryKeepsMirror(st: Store, sid: string, limit: Option<int>)
    requires Mirrored(st)
    ensures Mirrored(History(st, sid, limit).store)
  {
  }

  lemma ClearKeepsMirror(st: Store, sid: string)
    requires Mirrored(st)
    ensures Mirrored(Clear(st, sid))
  {
    var st' := Clear(st, sid);
    forall s | s in st'.memory
      ensures FileName(s) in st'.disk && st'.disk[FileName(s)] == Stored(st'.memory[s])
    {
      if FileName(s) == FileName(sid) {
        FileNameInjective(s, sid);
      }
    }
  }

  /**
    With the directory mirroring memory, a restarted process (empty memory,
    same directory) reads every history exactly as the running one does.
   */
  lemma MirrorSurvivesRestart(st: Store, sid: string, limit: Option<int>)
    requires Mirrored(st)
    ensures History(Store(map[], st.disk), sid, limit).value == History(st, sid, limit).value
  {
    assert Visible(Store(map[], st.disk), sid) == Visible(st, sid);
  }

  /** A second read returns the same history and leaves the store as the first read left it. */
  lemma HistoryRepeatable(st: Store, sid: string, limit: Option<int>)
    ensures var first := History(st, sid, limit);
      History(first.store, sid, limit) == first
  {
    var first := History(st, sid, limit);
    assert Visible(first.store, sid) == Visible(st, sid);
  }

  /** After a clear the session has no history, reads change nothing, and the context window is empty. */
  lemma ClearedSessionIsEmpty(st: Store, sid: string)
    ensures History(Clear(st, sid), sid, None) == Reply(Clear(st, sid), Success(None))
    ensures ContextMessages(Clear(st, sid), sid, 10).value == []
    ensures sid !in Sessions(Clear(st, sid))
  {
  }

  /** Clearing twice is clearing once; clearing an unknown session changes nothing. */
  lemma ClearIdempotent(st: Store, sid: string)
    ensures Clear(Clear(st, sid), sid) == Clear(st, sid)
    ensures sid !in st.memory && FileName(sid) !in st.disk ==> Clear(st, sid) == st
  {
  }

  /** The export carries the very sequence `get_conversation_history` returns, and its length. */
  lemma ExportAgreesWithHistory(st: Store, sid: string, now: string)
    requires ExportSession(st, sid, now).value.Success?
    ensures History(st, sid, None).value == Success(Some(ExportSession(st, sid, now).value.value.messages))
    ensures ExportSession(st, sid, now).value.value.messageCount == |ExportSession(st, sid, now).value.value.messages|
  {
  }

  /** A session that was written to is listed, whatever became of the write. */
  lemma AddedSessionIsListed(st: Store, maxHistory: int, sid: string, role: string, content: string,
                             metadata: Option<map<string, string>>, now: string, outcome: WriteOutcome)
    ensures sid in Sessions(AddMessage(st, maxHistory, sid, role, content, metadata, now, outcome))
  {
  }

  /**
    Once memory is emptied by a restart, a session whose id holds a `/` is
    no longer listed, although its file is still on disk and still loads.
   */
  lemma NestedSessionUnlistedAfterRestart(disk: map<string, Record>, sid: string, h: seq<Message>)
    requires '/' in sid && FileName(sid) in disk && disk[FileName(sid)] == Stored(h)
    ensures sid !in Sessions(Store(map[], disk))
    ensures Load(Store(map[], disk), sid) == Some(h)
  {
  }

  /**
    `add_message` does not read the file of a session missing from memory:
    after a restart the first message replaces the stored history.
   */
  lemma AddAfterRestartOverwritesFile(disk: map<string, Record>, maxHistory: int, sid: string, role: string,
                                      content: string, metadata: Option<map<string, string>>, now: string)
    requires maxHistory >= 1
    ensures AddMessage(Store(map[], disk), maxHistory, sid, role, content, metadata, now, Written).disk[FileName(sid)]
      == Stored([NewMessage(role, content, metadata, now)])
  {
    assert Cached(Store(map[], disk), sid) == [];
  }

  /** One call of `add_message`, with the outcome of its write. */
  datatype Append = Append(role: string, content: string, metadata: Option<map<string, string>>, now: string, outcome: WriteOutcome)

  function AddAll(st: Store, maxHistory: int, sid: string, appends: seq<Append>): Store
    decreases |appends|
  {
    if |appends| == 0 then st
    else
      var a := appends[0];
      AddAll(AddMessage(st, maxHistory, sid, a.role, a.content, a.metadata, a.now, a.outcome), maxHistory, sid, appends[1..])
  }

  function Messages(appends: seq<Append>): (ms: seq<Message>)
    ensures |ms| == |appends|
    ensures forall i :: 0 <= i < |appends| ==>
      ms[i] == NewMessage(appends[i].role, appends[i].content, appends[i].metadata, appends[i].now)
  {
    seq(|appends|, i requires 0 <= i < |appends| =>
      NewMessage(appends[i].role, appends[i].content, appends[i].metadata, appends[i].now))
  }

  lemma AddAllUnfold(st: Store, maxHistory: int, sid: string, appends: seq<Append>)
    requires |appends| > 0
    ensures var a := appends[0];
      AddAll(st, maxHistory, sid, appends)
      == AddAll(AddMessage(st, maxHistory, sid, a.role, a.content, a.metadata, a.now, a.outcome), maxHistory, sid, appends[1..])
  {
  }

  lemma MessagesCons(appends: seq<Append>)
    requires |appends| > 0
    ensures Messages(appends) == [Messages(appends)[0]] + Messages(appends[1..])
  {
    var ms, rest := Messages(appends), Messages(appends[1..]);
    assert forall i :: 0 <= i < |rest| ==> rest[i] == ms[i + 1];
    assert ms == [ms[0]] + rest;
  }

  lemma AddAllSingle(st: Store, maxHistory: int, sid: string, a: Append)
    ensures AddAll(st, maxHistory, sid, [a]) == AddMessage(st, maxHistory, sid, a.role, a.content, a.metadata, a.now, a.outcome)
  {
    AddAllUnfold(st, maxHistory, sid, [a]);
    assert [a][1..] == [];
  }

  /**
    After any run of appends with a positive bound, the session holds the
    newest `maxHistory` messages of its old history followed by the new
    ones, oldest first: 60 appends under a bound of 50 leave the last 50.
   */
  lemma {:induction false} AddAllKeepsNewest(st: Store, maxHistory: int, sid: string, appends: seq<Append>)
    requires maxHistory > 0 && |appends| > 0
    ensures sid in AddAll(st, maxHistory, sid, appends).memory
    ensures Cached(AddAll(st, maxHistory, sid, appends), sid) == PySlice.LastN(Cached(st, sid) + Messages(appends), maxHistory as nat)
    decreases |appends|
  {
    var a := appends[0];
    var n := maxHistory as nat;
    var st1 := AddMessage(st, maxHistory, sid, a.role, a.content, a.metadata, a.now, a.outcome);
    var m := NewMessage(a.role, a.content, a.metadata, a.now);
    if |appends| == 1 {
      assert appends == [a];
      AddAllSingle(st, maxHistory, sid, a);
      assert Messages([a]) == [m];
    } else {
      var rest := Messages(appends[1..]);
      var final := AddAll(st1, maxHistory, sid, appends[1..]);
      AddAllUnfold(st, maxHistory, sid, appends);
      MessagesCons(appends);
      AddAllKeepsNewest(st1, maxHistory, sid, appends[1..]);
      PySlice.LastNStep(Cached(st, sid), m, rest, n);
      calc {
        Cached(final, sid);
        PySlice.LastN(Cached(st1, sid) + rest, n);
        PySlice.LastN(PySlice.LastN(Cached(st, sid) + [m], n) + rest, n);
        PySlice.LastN(Cached(st, sid) + ([m] + rest), n);
        PySlice.LastN(Cached(st, sid) + Messages(appends), n);
      }
    }
  }

  /**
    Messages appended to a session that is not in memory (a user question,
    say, then the assistant's answer) come back, in order, as its context
    window once both bounds leave room for them, and the session is listed,
    whether or not the writes reached the disk.
   */
  lemma NewSessionRoundTrip(st: Store, maxHistory: int, limit: int, sid: string, appends: seq<Append>)
    requires sid !in st.memory
    requires 0 < |appends| <= maxHistory
    requires limit == 0 || |appends| <= limit
    ensures var st' := AddAll(st, maxHistory, sid, appends);
      && ContextMessages(st', sid, limit).value == Messages(appends)
      && sid in Sessions(st')
  {
    var st' := AddAll(st, maxHistory, sid, appends);
    var ms := Messages(appends);
    AddAllKeepsNewest(st, maxHistory, sid, appends);
    assert Cached(st, sid) + ms == ms;
    assert Visible(st', sid) == Some(ms);
  }

  /** An export of a session that has no history at all raises instead of returning an empty export. */
  lemma ExportOfUnknownSessionRaises()
    ensures ExportSession(Store(map[], map[]), "new-session", "2026-01-01T00:00:00").value == Failure(TypeError)
  {
  }
}
