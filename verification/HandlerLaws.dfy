/** What a handled request leaves behind, for every outcome and in the terms a client or an operator
    would use: what the directory has learnt, what was recorded, and what the next turn finds. */
module HandlerLaws {
  import opened Words
  import opened Directory
  import opened Recency
  import opened Tokenizer
  import opened Handler
  import F = Fleet
  import S = Scorer
  import R = Recorder

  // ---------------------------------------------------------------------------------------------
  // Learning
  // ---------------------------------------------------------------------------------------------

  /** The one outcome that cannot be: a first byte of a stream that was answered with an error status. */
  lemma PossibleOutcomes(o: F.Outcome)
    ensures F.Possible(o) <==> !(o.Streamed? && o.status >= 400 && o.firstByte)
    ensures Fits(true, o) <==> F.Possible(o) && !o.Responded?
    ensures Fits(false, o) <==> F.Possible(o) && !o.Streamed?
  {
  }

  /** Whatever the outcome: if a first byte of a stream came or a plain response was below 400, however
      the exchange ended, this prompt is appended to what is known of the backend; otherwise nothing
      changes. A backend without a shelf, or with a shelf without capacity, learns nothing. */
  lemma DirectoryAfterExchange(server: Server, before: Memory, after: Memory, req: ChatRequest,
                               state: S.BackendState, matched: nat, job: F.Job, o: F.Outcome, ttftMillis: int, now: nat)
    requires state.healthy && server.Concluded(before, after, req, state, matched, job, o, ttftMillis, now)
    ensures var id := state.id;
            if ((o.Streamed? && o.firstByte) || (o.Responded? && o.status < 400))
               && id in before.shelves && before.shelves[id].capacity > 0
            then
              var shelf := before.shelves[id];
              after.shelves == before.shelves[id := Shelf(shelf.capacity, shelf.history + [Batch(job.ns, job.blocks)])]
            else after.shelves == before.shelves
  {
  }

  /** A complete success is a possible outcome of either kind of request, and is learnt from. */
  lemma SuccessesAreLearntFrom()
    ensures var o := F.Streamed(200, true, false); Fits(true, o) && !ExchangeFailed(o) && F.Evidence(o)
    ensures var o := F.Responded(200, false); Fits(false, o) && !ExchangeFailed(o) && F.Evidence(o)
  {
  }

  // ---------------------------------------------------------------------------------------------
  // Recording
  // ---------------------------------------------------------------------------------------------

  /** The event recorded for a forwarded request, field by field. */
  lemma WhatIsRecorded(server: Server, board: Board, before: Memory, after: Memory, req: ChatRequest, job: F.Job,
                       o: F.Outcome, ttftMillis: int, now: nat, id: string)
    returns (e: R.RouteEvent)
    requires server.Replied(board, before, after, req, job, o, ttftMillis, now, Forwarded(id, o))
    ensures after.log == before.log + [e] && after.drawn == before.drawn + 1
    ensures e.id == before.drawn + 1 && e.timestamp == now && e.model == req.model && e.backendID == id
    ensures e.totalBlocks == |job.blocks| && e.matchedBlocks <= e.totalBlocks && e.stream == req.stream
    ensures e.matchedBlocks ==
              if id in before.shelves then Reach(Kept(before.shelves[id]), job.ns, job.blocks) else 0
    ensures id in board && (FitsInt(board[id].depth) ==> e.queueDepth == board[id].depth)
    ensures o.Unreachable? || (o.Streamed? && o.failed) ==> e.statusCode == 502
    ensures o.Streamed? && !o.failed ==> e.statusCode == 200
    ensures o.Responded? ==> e.statusCode == o.status
    ensures e.ttftMillis == if o.Streamed? && o.firstByte && !o.failed then ttftMillis else 0
    ensures FitsInt(|job.blocks|) ==>
              var state := SnapshotOf(board, before.shelves, id, job);
              S.Score(server.weights, S.Request(job.blocks, |job.blocks|), state) == S.Fin(e.score)
  {
    e := after.log[|before.log|];
  }

  /** What is sampled of a backend is what pool and directory show, as far as it fits Go's integers. */
  lemma SnapshotReadsTruly(board: Board, shelves: map<string, Shelf>, id: string, job: F.Job)
    requires id in board && id in shelves && FitsInt(board[id].depth) && FitsInt(board[id].limit)
    requires FitsInt(shelves[id].capacity) && FitsInt(|job.blocks|)
    ensures var s := SnapshotOf(board, shelves, id, job);
            && s.id == id && s.healthy && s.queueDepth == board[id].depth && s.maxQueueDepth == board[id].limit
            && s.usedBlocks == |Kept(shelves[id])| && s.totalCapacity == shelves[id].capacity
            && s.matchedBlocks == Reach(Kept(shelves[id]), job.ns, job.blocks)
  {
    KeptWithinCapacity(shelves[id]);
    assert IsReach(Kept(shelves[id]), job.ns, job.blocks, Reach(Kept(shelves[id]), job.ns, job.blocks));
  }

  // ---------------------------------------------------------------------------------------------
  // The next turn
  // ---------------------------------------------------------------------------------------------

  /** Models do not share a namespace. */
  lemma NamespacesAreApart(a: string, b: string)
    ensures Namespace(a) == Namespace(b) <==> a == b
    ensures Namespace(a)[..5] == "chat:" && Namespace(a)[5..] == a
  {
    assert Namespace(a)[5..] == a && Namespace(b)[5..] == b;
  }

  /** The distinct keys of the prompt fit the shelf. */
  ghost predicate RoomFor(shelf: Shelf, job: F.Job) {
    shelf.capacity > 0 && |Elements(BatchSlots(Batch(job.ns, job.blocks)))| <= shelf.capacity
  }

  /** A conversation that was served, and of which a first byte came or a plain response below 400, comes
      home: every later conversation with the same model that goes on from it finds at least all its full
      blocks on that backend, if the distinct keys of the commit fit the backend's shelf. */
  lemma ServedConversationComesHome(server: Server, board: Board, before: Memory, after: Memory, req: ChatRequest,
                                    next: ChatRequest, o: F.Outcome, ttftMillis: int, now: nat, id: string)
    requires server.hasher.Valid() && id in before.shelves && RoomFor(before.shelves[id], server.JobOf(req))
    requires server.Replied(board, before, after, req, server.JobOf(req), o, ttftMillis, now, Forwarded(id, o))
    requires (o.Streamed? && o.firstByte) || (o.Responded? && o.status < 400)
    requires next.model == req.model && Flatten(req.messages) <= Flatten(next.messages)
    ensures id in after.shelves
    ensures F.MatchOn(after.shelves, id, server.JobOf(next)) >= |Flatten(req.messages)| / server.hasher.blockSize
  {
    var shelf, b := before.shelves[id], Batch(Namespace(req.model), server.JobOf(req).blocks);
    DirectoryAfterExchange(server, before, after, req, SnapshotOf(board, before.shelves, id, server.JobOf(req)),
                           F.MatchOn(before.shelves, id, server.JobOf(req)), server.JobOf(req), o, ttftMillis, now);
    var later := after.shelves[id];
    assert later.history[|shelf.history|..] == [b];
    TouchesOfOne(b);
    Homecoming(server.hasher, later, |shelf.history|, Namespace(req.model), Flatten(req.messages),
               Flatten(next.messages));
  }

  /** A request for one model makes no conversation with another one match better anywhere. */
  lemma OtherModelsGainNothing(server: Server, board: Board, before: Memory, after: Memory, req: ChatRequest,
                               next: ChatRequest, o: F.Outcome, ttftMillis: int, now: nat, reply: Reply, id: string)
    requires server.hasher.Valid() && next.model != req.model
    requires server.Replied(board, before, after, req, server.JobOf(req), o, ttftMillis, now, reply)
    ensures F.MatchOn(after.shelves, id, server.JobOf(next)) <= F.MatchOn(before.shelves, id, server.JobOf(next))
  {
    NamespacesAreApart(req.model, next.model);
    if reply.Forwarded? {
      assert after.shelves == Observed(before.shelves, reply.id, server.JobOf(req), o);
      LearntElsewhere(before.shelves, reply.id, server.JobOf(req), id, server.JobOf(next));
    }
  }

  lemma LearntElsewhere(shelves: map<string, Shelf>, at: string, job: F.Job, id: string, other: F.Job)
    requires other.ns != job.ns
    ensures F.MatchOn(Learnt(shelves, at, job), id, other) <= F.MatchOn(shelves, id, other)
  {
    if id == at && id in shelves {
      OtherNamespacesGainNothing(shelves[id], Batch(job.ns, job.blocks), other.ns, other.blocks);
    }
  }

  /** Two turns of a conversation, with nothing in between. */
  method TwoTurns(server: Server, req: ChatRequest, next: ChatRequest, o: F.Outcome, ttftMillis: int, now: nat)
    returns (reply: Reply, matched: nat)
    requires server.Valid() && server.cache.clock <= now && now > 0 && Fits(req.stream, o)
    requires (o.Streamed? && o.firstByte) || (o.Responded? && o.status < 400)
    requires next.model == req.model && req.messages <= next.messages
    modifies server.pool.backends.Values`queueDepth, server.cache`sequence, server.cache`clock, server.cache`shelves,
             server.cache.backends.Values`entries, server.telemetry, server.telemetry.events
    ensures reply.Forwarded? ==>
              var shelves := old(server.cache.shelves);
              reply.id in shelves && RoomFor(shelves[reply.id], server.JobOf(req)) ==>
                matched >= |Flatten(req.messages)| / server.hasher.blockSize
  {
    ghost var board, before := server.Board(), server.Remembered();
    reply := server.HandleChat(req, o, ttftMillis, now);
    matched := 0;
    if reply.Forwarded? {
      LongerText(req.messages, next.messages);
      NextTurn(server, board, before, server.Remembered(), req, next, o, ttftMillis, now, reply.id);
      matched := Ask(server, reply.id, next);
    }
  }

  /** The part of a request that asks what a backend holds of it. */
  method Ask(server: Server, id: string, req: ChatRequest) returns (matched: nat)
    requires server.Valid()
    ensures matched == old(F.MatchOn(server.cache.shelves, id, server.JobOf(req)))
  {
    var hashes := server.hasher.HashPrefix(req.messages);
    assert server.cache.Valid();
    matched := server.cache.Lookup(id, Namespace(req.model), hashes);
  }

  lemma LongerText(first: seq<Message>, longer: seq<Message>)
    requires first <= longer
    ensures Flatten(first) <= Flatten(longer)
  {
    FlattenAppend(first, longer[|first|..]);
    assert longer == first + longer[|first|..];
  }

  lemma NextTurn(server: Server, board: Board, before: Memory, after: Memory, req: ChatRequest, next: ChatRequest,
                 o: F.Outcome, ttftMillis: int, now: nat, id: string)
    requires server.hasher.Valid()
    requires server.Replied(board, before, after, req, server.JobOf(req), o, ttftMillis, now, Forwarded(id, o))
    requires (o.Streamed? && o.firstByte) || (o.Responded? && o.status < 400)
    requires next.model == req.model && Flatten(req.messages) <= Flatten(next.messages)
    ensures id in before.shelves && RoomFor(before.shelves[id], server.JobOf(req)) ==>
              F.MatchOn(after.shelves, id, server.JobOf(next)) >= |Flatten(req.messages)| / server.hasher.blockSize
  {
    if id in before.shelves && RoomFor(before.shelves[id], server.JobOf(req)) {
      ServedConversationComesHome(server, board, before, after, req, next, o, ttftMillis, now, id);
    }
  }
}
