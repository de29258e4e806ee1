/** The block protocol of packages/ledgerjs-hw-app-sui/src/Sui.ts: payloads go to the device as linked
    lists of chunks, which it asks for by their hashes. SHA-256 is a parameter. */
module LedgerBlocks {
  import opened Octets
  import opened Results
  import opened Sequences

  type Data = seq<Byte>
  type Blocks = map<Data, Data>

  const CHUNK_SIZE := 180
  const HASH_SIZE := 32

  function Zero(): (r: Data)
    ensures |r| == HASH_SIZE
  {
    seq(HASH_SIZE, _ => 0)
  }

  // ---------- Chunks and blocks ----------

  function Min(a: nat, b: nat): nat {
    if a < b then a else b
  }

  function Chunks(payload: Data): seq<Data>
    decreases |payload|
  {
    if payload == [] then []
    else
      var n := Min(CHUNK_SIZE, |payload|);
      [payload[..n]] + Chunks(payload[n..])
  }

  /** The fold from the last chunk to the first: a block is the hash of the rest and the chunk. The
      result is the hash that points to the list, and the blocks. */
  function Link(hash: Data -> Data, chunks: seq<Data>, blocks: Blocks): (Data, Blocks) {
    if chunks == [] then (Zero(), blocks)
    else
      var (next, rest) := Link(hash, chunks[1..], blocks);
      Put(hash, rest, next + chunks[0])
  }

  /** Storing a block under its hash. */
  function Put(hash: Data -> Data, blocks: Blocks, block: Data): (Data, Blocks) {
    (hash(block), blocks[hash(block) := block])
  }

  function LinkAll(hash: Data -> Data, payloads: seq<Data>, blocks: Blocks): (r: (seq<Data>, Blocks))
    ensures |r.0| == |payloads|
  {
    if payloads == [] then ([], blocks)
    else
      var n := |payloads| - 1;
      var (heads, before) := LinkAll(hash, payloads[..n], blocks);
      var (head, after) := Link(hash, Chunks(payloads[n]), before);
      (heads + [head], after)
  }

  method SplitIntoChunks(payload: Data) returns (chunkList: seq<Data>)
    ensures chunkList == Chunks(payload)
  {
    chunkList := [];
    var i := 0;
    assert payload[0..] == payload;
    while i < |payload|
      invariant i <= |payload| ==> Chunks(payload) == chunkList + Chunks(payload[i..])
      invariant i > |payload| ==> Chunks(payload) == chunkList
      decreases |payload| - i
    {
      var end := Min(i + CHUNK_SIZE, |payload|);
      assert payload[i..][..end - i] == payload[i..end] && payload[i..][end - i..] == payload[end..];
      chunkList := chunkList + [payload[i..end]];
      i := i + CHUNK_SIZE;
    }
  }

  method LinkChunks(hash: Data -> Data, chunkList: seq<Data>, data: Blocks) returns (lastHash: Data, blocks: Blocks)
    ensures (lastHash, blocks) == Link(hash, chunkList, data)
  {
    lastHash, blocks := Zero(), data;
    var k := |chunkList|;
    while k > 0
      invariant 0 <= k <= |chunkList|
      invariant (lastHash, blocks) == Link(hash, chunkList[k..], data)
    {
      k := k - 1;
      assert chunkList[k..][1..] == chunkList[k + 1..];
      var linkedChunk := lastHash + chunkList[k];
      lastHash := hash(linkedChunk);
      blocks := blocks[lastHash := linkedChunk];
    }
    assert chunkList[0..] == chunkList;
  }

  // ---------- The conversation ----------

  datatype ProtocolError = UnknownInstruction | NoReply

  /** What the host has: the message to send next, the result so far, and the blocks. */
  datatype Host = Host(payload: Data, result: Data, data: Blocks)

  const START: Byte := 0
  const GET_CHUNK_RESPONSE_SUCCESS: Byte := 1
  const GET_CHUNK_RESPONSE_FAILURE: Byte := 2
  const PUT_CHUNK_RESPONSE: Byte := 3
  const RESULT_ACCUMULATING_RESPONSE: Byte := 4

  const RESULT_ACCUMULATING: Byte := 0
  const RESULT_FINAL: Byte := 1
  const GET_CHUNK: Byte := 2
  const PUT_CHUNK: Byte := 3

  predicate Known(rv: Data) {
    rv != [] && rv[0] <= PUT_CHUNK
  }

  predicate Final(rv: Data) {
    rv != [] && rv[0] == RESULT_FINAL
  }

  /** What a reply carries, without the instruction and the return code of two bytes. */
  function Body(rv: Data): Data {
    if |rv| < 3 then [] else rv[1..|rv| - 2]
  }

  /** The answer to GET_CHUNK. */
  function Answer(data: Blocks, key: Data): Data {
    if key in data then [GET_CHUNK_RESPONSE_SUCCESS] + data[key] else [GET_CHUNK_RESPONSE_FAILURE]
  }

  function Step(hash: Data -> Data, host: Host, rv: Data): Host
    requires Known(rv)
  {
    if rv[0] == GET_CHUNK then host.(payload := Answer(host.data, Body(rv)))
    else if rv[0] == PUT_CHUNK then host.(data := Put(hash, host.data, Body(rv)).1, payload := [PUT_CHUNK_RESPONSE])
    else host.(result := host.result + Body(rv), payload := [RESULT_ACCUMULATING_RESPONSE])
  }

  /** The conversation with a device that gives these replies: the messages sent to it, and the result. */
  function Converse(hash: Data -> Data, host: Host, replies: seq<Data>): (seq<Data>, Result<Data, ProtocolError>)
    decreases |replies|
  {
    if replies == [] then ([host.payload], Failure(NoReply))
    else if !Known(replies[0]) then ([host.payload], Failure(UnknownInstruction))
    else
      var next := Step(hash, host, replies[0]);
      if Final(replies[0]) then ([host.payload], Success(next.result))
      else
        var (sent, r) := Converse(hash, next, replies[1..]);
        ([host.payload] + sent, r)
  }

  /** The switch over the instruction of a reply. */
  method Respond(hash: Data -> Data, rv: Data, oldResult: Data, oldData: Blocks)
    returns (payload: Data, result: Data, data: Blocks)
    requires Known(rv)
    ensures forall message :: Host(payload, result, data) == Step(hash, Host(message, oldResult, oldData), rv)
  {
    result, data := oldResult, oldData;
    var body := Body(rv);
    if rv[0] == GET_CHUNK {
      if body in data {
        payload := [GET_CHUNK_RESPONSE_SUCCESS] + data[body];
      } else {
        payload := [GET_CHUNK_RESPONSE_FAILURE];
      }
    } else if rv[0] == PUT_CHUNK {
      data := data[hash(body) := body];
      payload := [PUT_CHUNK_RESPONSE];
    } else {
      result := result + body;
      payload := [RESULT_ACCUMULATING_RESPONSE];
    }
  }

  method HandleBlocksProtocol(hash: Data -> Data, initialPayload: Data, initialData: Blocks, replies: seq<Data>)
    returns (sent: seq<Data>, r: Result<Data, ProtocolError>)
    ensures (sent, r) == Converse(hash, Host(initialPayload, [], initialData), replies)
    ensures Dialogue(hash, initialPayload, initialData, replies, sent)
  {
    ConversationIsDialogue(hash, Host(initialPayload, [], initialData), replies);
    hide Step, Body, Put, Dialogue;
    var payload, result, data := initialPayload, [], initialData;
    sent := [];
    var i := 0;
    ghost var whole := Converse(hash, Host(initialPayload, [], initialData), replies);
    assert replies[0..] == replies;
    while true
      invariant 0 <= i <= |replies|
      invariant var rest := Converse(hash, Host(payload, result, data), replies[i..]);
                whole.0 == sent + rest.0 && whole.1 == rest.1
      decreases |replies| - i
    {
      sent := sent + [payload];
      if i == |replies| {
        return sent, Failure(NoReply);
      }
      var rv := replies[i];
      assert replies[i..][0] == rv && replies[i..][1..] == replies[i + 1..];
      if rv == [] || rv[0] > PUT_CHUNK {
        return sent, Failure(UnknownInstruction);
      }
      payload, result, data := Respond(hash, rv, result, data);
      i := i + 1;
      if rv[0] == RESULT_FINAL {
        return sent, Success(result);
      }
    }
  }

  /** The whole call: the blocks of every payload, then the conversation, which starts with the hashes
      that point to the payloads. */
  method SendChunks(hash: Data -> Data, payloads: seq<Data>, extraData: Blocks, replies: seq<Data>)
    returns (sent: seq<Data>, r: Result<Data, ProtocolError>)
    ensures var (heads, data) := LinkAll(hash, payloads, extraData);
            (sent, r) == Converse(hash, Host([START] + Concatenate(heads), [], data), replies)
  {
    hide Chunks, Link, Concatenate, Converse;
    var parameterList: seq<Data> := [];
    var data := extraData;
    var j := 0;
    while j < |payloads|
      invariant 0 <= j <= |payloads|
      invariant (parameterList, data) == LinkAll(hash, payloads[..j], extraData)
    {
      assert payloads[..j + 1][..j] == payloads[..j];
      var chunkList := SplitIntoChunks(payloads[j]);
      var lastHash;
      lastHash, data := LinkChunks(hash, chunkList, data);
      parameterList := parameterList + [lastHash];
      j := j + 1;
    }
    assert payloads[..j] == payloads;
    sent, r := HandleBlocksProtocol(hash, [START] + Concatenate(parameterList), data, replies);
  }

  // ---------- Content addressing ----------

  /** A hash of 32 bytes that does not collide on a set of blocks, and is never all zero on it. */
  ghost predicate GoodHash(hash: Data -> Data, all: set<Data>) {
    && (forall b :: |hash(b)| == HASH_SIZE)
    && (forall a, b :: a in all && b in all && hash(a) == hash(b) ==> a == b)
    && (forall b :: b in all ==> hash(b) != Zero())
  }

  /** Every key is the hash of its block, and every block is one of a set. */
  ghost predicate Addressed(hash: Data -> Data, data: Blocks, all: set<Data>) {
    forall k :: k in data ==> k == hash(data[k]) && data[k] in all
  }

  ghost predicate Extends(before: Blocks, after: Blocks) {
    forall k :: k in before ==> k in after && after[k] == before[k]
  }

  /** Storing a block under its hash never changes what another hash stands for. */
  lemma PutKeeps(hash: Data -> Data, data: Blocks, block: Data, all: set<Data>)
    requires GoodHash(hash, all) && Addressed(hash, data, all) && block in all
    ensures Addressed(hash, Put(hash, data, block).1, all) && Extends(data, Put(hash, data, block).1)
  {
  }

  /** The blocks that a list of chunks is linked into. */
  function BlocksOf(hash: Data -> Data, chunks: seq<Data>): set<Data> {
    if chunks == [] then {} else {Head(hash, chunks[1..]) + chunks[0]} + BlocksOf(hash, chunks[1..])
  }

  /** The hash that points to a list of chunks. */
  function Head(hash: Data -> Data, chunks: seq<Data>): Data {
    if chunks == [] then Zero() else hash(Head(hash, chunks[1..]) + chunks[0])
  }

  function AllBlocks(hash: Data -> Data, payloads: seq<Data>): set<Data> {
    set b, j | 0 <= j < |payloads| && b in BlocksOf(hash, Chunks(payloads[j])) :: b
  }

  lemma {:induction false} LinkKeeps(hash: Data -> Data, chunks: seq<Data>, data: Blocks, all: set<Data>)
    requires GoodHash(hash, all) && Addressed(hash, data, all) && BlocksOf(hash, chunks) <= all
    ensures var (head, r) := Link(hash, chunks, data);
            head == Head(hash, chunks) && Addressed(hash, r, all) && Extends(data, r) && Chain(r, head, chunks)
  {
    if chunks != [] {
      LinkKeeps(hash, chunks[1..], data, all);
      var (next, rest) := Link(hash, chunks[1..], data);
      var block := next + chunks[0];
      PutKeeps(hash, rest, block, all);
      var r := Put(hash, rest, block).1;
      hide GoodHash, Addressed;
      HeadSize(hash, chunks[1..], all);
      assert block[..HASH_SIZE] == next && block[HASH_SIZE..] == chunks[0];
      ChainExtends(rest, r, next, chunks[1..]);
      NotZero(hash, block, all);
    }
  }

  lemma HeadSize(hash: Data -> Data, chunks: seq<Data>, all: set<Data>)
    requires GoodHash(hash, all)
    ensures |Head(hash, chunks)| == HASH_SIZE
  {
  }

  lemma NotZero(hash: Data -> Data, block: Data, all: set<Data>)
    requires GoodHash(hash, all) && block in all
    ensures hash(block) != Zero()
  {
  }

  /** A hash leads through the blocks of these chunks to the zero hash. */
  ghost predicate Chain(data: Blocks, head: Data, chunks: seq<Data>)
    decreases |chunks|
  {
    if chunks == [] then head == Zero()
    else
      && head != Zero() && head in data && |data[head]| >= HASH_SIZE
      && data[head][HASH_SIZE..] == chunks[0]
      && Chain(data, data[head][..HASH_SIZE], chunks[1..])
  }

  lemma {:induction false} ChainExtends(before: Blocks, after: Blocks, head: Data, chunks: seq<Data>)
    requires Extends(before, after) && Chain(before, head, chunks)
    ensures Chain(after, head, chunks)
    decreases |chunks|
  {
    if chunks != [] {
      ChainExtends(before, after, before[head][..HASH_SIZE], chunks[1..]);
    }
  }

  /** Every payload is reachable from its head, after all of them have been linked. */
  lemma {:induction false} LinkAllKeeps(hash: Data -> Data, payloads: seq<Data>, data: Blocks, all: set<Data>)
    requires GoodHash(hash, all) && Addressed(hash, data, all) && AllBlocks(hash, payloads) <= all
    ensures var (heads, r) := LinkAll(hash, payloads, data);
            && Addressed(hash, r, all) && Extends(data, r)
            && forall j :: 0 <= j < |payloads| ==>
                      heads[j] == Head(hash, Chunks(payloads[j])) && Chain(r, heads[j], Chunks(payloads[j]))
    decreases |payloads|
  {
    hide GoodHash, Addressed, Chain, Head, Chunks, AllBlocks, Link;
    if payloads != [] {
      var n := |payloads| - 1;
      BlocksOfLast(hash, payloads);
      LinkAllKeeps(hash, payloads[..n], data, all);
      var (heads, before) := LinkAll(hash, payloads[..n], data);
      LinkKeeps(hash, Chunks(payloads[n]), before, all);
      var after := Link(hash, Chunks(payloads[n]), before).1;
      forall j | 0 <= j < n
        ensures heads[j] == Head(hash, Chunks(payloads[j])) && Chain(after, heads[j], Chunks(payloads[j]))
      {
        assert payloads[..n][j] == payloads[j];
        ChainExtends(before, after, heads[j], Chunks(payloads[j]));
      }
    }
  }

  lemma BlocksOfLast(hash: Data -> Data, payloads: seq<Data>)
    requires payloads != []
    ensures AllBlocks(hash, payloads[..|payloads| - 1]) <= AllBlocks(hash, payloads)
    ensures BlocksOf(hash, Chunks(payloads[|payloads| - 1])) <= AllBlocks(hash, payloads)
  {
    hide BlocksOf, Chunks;
  }

  // ---------- Every run ----------

  /** The blocks that a device puts. */
  function PutBlocks(replies: seq<Data>): set<Data> {
    set i | 0 <= i < |replies| && replies[i] != [] && replies[i][0] == PUT_CHUNK :: Body(replies[i])
  }

  /** The host after a conversation that is not over. */
  function After(hash: Data -> Data, host: Host, replies: seq<Data>): Host
    requires forall i :: 0 <= i < |replies| ==> Known(replies[i])
    decreases |replies|
  {
    if replies == [] then host else After(hash, Step(hash, host, replies[0]), replies[1..])
  }

  /** Whatever a device asks for or puts, in whatever order, the block map stays content-addressed and
      no block is lost or replaced. */
  lemma {:induction false} RunKeepsBlocks(hash: Data -> Data, host: Host, replies: seq<Data>, all: set<Data>)
    requires forall i :: 0 <= i < |replies| ==> Known(replies[i])
    requires GoodHash(hash, all) && Addressed(hash, host.data, all) && PutBlocks(replies) <= all
    ensures Addressed(hash, After(hash, host, replies).data, all) && Extends(host.data, After(hash, host, replies).data)
    decreases |replies|
  {
    hide GoodHash, Addressed;
    if replies != [] {
      var next := Step(hash, host, replies[0]);
      assert replies[0][0] == PUT_CHUNK ==> Body(replies[0]) in PutBlocks(replies);
      if replies[0][0] == PUT_CHUNK {
        PutKeeps(hash, host.data, Body(replies[0]), all);
      }
      assert PutBlocks(replies[1..]) <= PutBlocks(replies) by {
        forall b | b in PutBlocks(replies[1..])
          ensures b in PutBlocks(replies)
        {
          var i :| 0 <= i < |replies[1..]| && replies[1..][i] != [] && replies[1..][i][0] == PUT_CHUNK
              && b == Body(replies[1..][i]);
          assert replies[i + 1] == replies[1..][i];
        }
      }
      RunKeepsBlocks(hash, next, replies[1..], all);
    } else {
      assert Extends(host.data, host.data);
    }
  }

  lemma {:induction false} ChunkCount(payload: Data)
    ensures |Chunks(payload)| == (|payload| + 179) / 180
    decreases |payload|
  {
    if payload != [] {
      ChunkCount(payload[Min(CHUNK_SIZE, |payload|)..]);
    }
  }

  lemma ChunksUnfold(payload: Data)
    requires payload != []
    ensures Chunks(payload) == if |payload| <= 180 then [payload] else [payload[..180]] + Chunks(payload[180..])
  {
    if |payload| <= 180 {
      assert payload[..|payload|] == payload && payload[|payload|..] == [];
    }
  }

  lemma SliceBehind(payload: Data, from: nat, to: nat)
    requires 180 <= from <= to <= |payload|
    ensures payload[180..][from - 180..to - 180] == payload[from..to]
  {
  }

  lemma {:induction false} ChunkAt(payload: Data, i: nat)
    requires i < |Chunks(payload)|
    ensures 180 * i < |payload| && Chunks(payload)[i] == payload[180 * i..Min(180 * i + 180, |payload|)]
    decreases i
  {
    assert payload != [];
    ChunksUnfold(payload);
    hide Chunks;
    if i > 0 {
      ChunkAt(payload[180..], i - 1);
      SliceBehind(payload, 180 * i, Min(180 * i + 180, |payload|));
    } else {
      assert payload[0..Min(180, |payload|)] == payload[..Min(180, |payload|)];
    }
  }

  /** The chunks are the payload in pieces of 180 bytes; only the last one may be shorter. */
  lemma {:induction false} ChunksRestorePayload(payload: Data)
    ensures Concatenate(Chunks(payload)) == payload
    ensures |Chunks(payload)| == (|payload| + 179) / 180
    ensures forall i :: 0 <= i < |Chunks(payload)| ==>
        180 * i < |payload| && Chunks(payload)[i] == payload[180 * i..Min(180 * i + 180, |payload|)]
    decreases |payload|
  {
    ChunkCount(payload);
    forall i | 0 <= i < |Chunks(payload)|
      ensures 180 * i < |payload| && Chunks(payload)[i] == payload[180 * i..Min(180 * i + 180, |payload|)]
    {
      hide Chunks;
      ChunkAt(payload, i);
    }
    if payload != [] {
      var n := Min(CHUNK_SIZE, |payload|);
      ChunksRestorePayload(payload[n..]);
      assert payload == payload[..n] + payload[n..];
    }
  }

  // ---------- The messages ----------

  /** A reply with an instruction and a body; the two bytes at its end are a return code. */
  ghost predicate Says(rv: Data, instruction: Byte, body: Data) {
    rv != [] && rv[0] == instruction && body == Inside(rv)
  }

  /** The bytes between the first and the last two. */
  function Inside(rv: Data): Data {
    if |rv| < 3 then [] else rv[1..|rv| - 2]
  }

  /** A reply after which the conversation goes on: a part of the result, a request or a block to store. */
  ghost predicate Continues(rv: Data) {
    rv != [] && (rv[0] == 0 || rv[0] == 2 || rv[0] == 3)
  }

  ghost predicate OpenUntil(replies: seq<Data>, n: nat)
    requires n <= |replies|
  {
    forall k :: 0 <= k < n ==> Continues(replies[k])
  }

  ghost predicate PutsUnder(hash: Data -> Data, rv: Data, key: Data) {
    exists block :: Says(rv, 3, block) && hash(block) == key
  }

  /** The last block put under a key. */
  ghost predicate LastPut(hash: Data -> Data, replies: seq<Data>, key: Data, block: Data, p: nat) {
    && p < |replies| && Says(replies[p], 3, block) && hash(block) == key
    && forall q :: p < q < |replies| ==> !PutsUnder(hash, replies[q], key)
  }

  /** What the host holds under a key after some replies: the last block put under it, or what it held
      at the start if none was. */
  ghost predicate Holds(hash: Data -> Data, data: Blocks, replies: seq<Data>, key: Data, block: Data) {
    || ((forall q :: 0 <= q < |replies| ==> !PutsUnder(hash, replies[q], key)) && key in data && data[key] == block)
    || exists p :: LastPut(hash, replies, key, block, p)
  }

  /** The message that follows a reply: 1 and the block, or 2 for one that is not held, to a request; 3
      to a block that was stored; 4 to a part of the result. */
  ghost predicate Answered(hash: Data -> Data, data: Blocks, before: seq<Data>, rv: Data, message: Data) {
    && (forall key, block :: Says(rv, 2, key) && Holds(hash, data, before, key, block) ==> message == [1] + block)
    && (forall key :: Says(rv, 2, key) && (forall block :: !Holds(hash, data, before, key, block)) ==> message == [2])
    && (rv != [] && rv[0] == 3 ==> message == [3])
    && (rv != [] && rv[0] == 0 ==> message == [4])
  }

  /** The message after reply i is sent, and answers it. */
  ghost predicate AnsweredAt(hash: Data -> Data, data: Blocks, replies: seq<Data>, sent: seq<Data>, i: nat)
    requires i < |replies|
  {
    i + 1 < |sent| && Answered(hash, data, replies[..i], replies[i], sent[i + 1])
  }

  /** Every message of a conversation, up to the first reply that ends it. */
  ghost predicate Dialogue(hash: Data -> Data, initialPayload: Data, initialData: Blocks, replies: seq<Data>,
                           sent: seq<Data>)
  {
    && sent != [] && sent[0] == initialPayload && |sent| <= |replies| + 1
    && (forall i :: 0 <= i < |replies| && OpenUntil(replies, i + 1) ==>
          AnsweredAt(hash, initialData, replies, sent, i))
  }

  lemma {:induction false} AfterAppend(hash: Data -> Data, host: Host, replies: seq<Data>, rv: Data)
    requires (forall i :: 0 <= i < |replies| ==> Known(replies[i])) && Known(rv)
    ensures After(hash, host, replies + [rv]) == Step(hash, After(hash, host, replies), rv)
    decreases |replies|
  {
    hide Step;
    if replies == [] {
      assert [] + [rv] == [rv];
      assert After(hash, Step(hash, host, rv), [rv][1..]) == Step(hash, host, rv);
    } else {
      assert (replies + [rv])[1..] == replies[1..] + [rv];
      AfterAppend(hash, Step(hash, host, replies[0]), replies[1..], rv);
    }
  }

  /** The message sent after i replies is the one that the host has then. */
  lemma {:induction false} SentIs(hash: Data -> Data, host: Host, replies: seq<Data>, i: nat)
    requires i <= |replies| && forall k :: 0 <= k < i ==> Known(replies[k]) && !Final(replies[k])
    ensures var sent := Converse(hash, host, replies).0;
            i < |sent| <= |replies| + 1 && sent[i] == After(hash, host, replies[..i]).payload
    decreases |replies|
  {
    hide Step;
    if i > 0 {
      SentIs(hash, Step(hash, host, replies[0]), replies[1..], i - 1);
      assert replies[..i][1..] == replies[1..][..i - 1];
    }
    if replies != [] && Known(replies[0]) && !Final(replies[0]) {
      SentIs(hash, Step(hash, host, replies[0]), replies[1..], 0);
    }
  }

  /** The map of the host holds exactly what the replies so far say. */
  lemma {:induction false} DataIs(hash: Data -> Data, host: Host, replies: seq<Data>, key: Data)
    requires forall i :: 0 <= i < |replies| ==> Known(replies[i])
    ensures var data := After(hash, host, replies).data;
            && (key in data <==> exists block :: Holds(hash, host.data, replies, key, block))
            && forall block :: Holds(hash, host.data, replies, key, block) <==> key in data && data[key] == block
    decreases |replies|
  {
    if replies == [] {
      assert key in host.data ==> Holds(hash, host.data, replies, key, host.data[key]);
    } else {
      var n := |replies| - 1;
      var rv := replies[n];
      var before := After(hash, host, replies[..n]);
      assert replies == replies[..n] + [rv];
      DataIs(hash, host, replies[..n], key);
      AfterAppend(hash, host, replies[..n], rv);
      forall block
        ensures Holds(hash, host.data, replies, key, block) <==>
            var data := Step(hash, before, rv).data; key in data && data[key] == block
      {
        HoldsOneMore(hash, host.data, replies, key, block);
        StepHolds(hash, before, rv, key, block);
      }
      hide Step, Holds, After;
      var data := After(hash, host, replies).data;
      assert key in data ==> Holds(hash, host.data, replies, key, data[key]);
    }
  }

  lemma LastPutOneMore(hash: Data -> Data, replies: seq<Data>, key: Data, block: Data, p: nat)
    requires replies != []
    ensures var (n, init) := (|replies| - 1, replies[..|replies| - 1]);
            LastPut(hash, replies, key, block, p) <==>
                || (p == n && Says(replies[n], 3, block) && hash(block) == key)
                || (!PutsUnder(hash, replies[n], key) && LastPut(hash, init, key, block, p))
  {
    hide Says, PutsUnder;
    var (n, init) := (|replies| - 1, replies[..|replies| - 1]);
    assert forall q :: 0 <= q < n ==> init[q] == replies[q];
  }

  lemma HoldsOneMore(hash: Data -> Data, data: Blocks, replies: seq<Data>, key: Data, block: Data)
    requires replies != []
    ensures var n := |replies| - 1;
            Holds(hash, data, replies, key, block) <==>
                || (Says(replies[n], 3, block) && hash(block) == key)
                || (!PutsUnder(hash, replies[n], key) && Holds(hash, data, replies[..n], key, block))
  {
    var (n, init) := (|replies| - 1, replies[..|replies| - 1]);
    hide LastPut, Says, PutsUnder;
    assert forall q :: 0 <= q < n ==> init[q] == replies[q];
    LastPutOneMore(hash, replies, key, block, n);
    if p :| LastPut(hash, replies, key, block, p) {
      LastPutOneMore(hash, replies, key, block, p);
    }
    if p :| LastPut(hash, init, key, block, p) {
      LastPutOneMore(hash, replies, key, block, p);
    }
  }

  lemma StepHolds(hash: Data -> Data, host: Host, rv: Data, key: Data, block: Data)
    requires Known(rv)
    ensures var data := Step(hash, host, rv).data;
            key in data && data[key] == block <==>
                || (Says(rv, 3, block) && hash(block) == key)
                || (!PutsUnder(hash, rv, key) && key in host.data && host.data[key] == block)
  {
    if rv[0] == 3 {
      assert Says(rv, 3, Body(rv));
    }
  }

  lemma ContinuesIsKnown(replies: seq<Data>, i: nat)
    requires i <= |replies| && OpenUntil(replies, i)
    ensures forall k :: 0 <= k < i ==> Known(replies[k]) && !Final(replies[k])
  {
  }

  /** Every conversation is a dialogue. */
  lemma ConversationIsDialogue(hash: Data -> Data, host: Host, replies: seq<Data>)
    ensures Dialogue(hash, host.payload, host.data, replies, Converse(hash, host, replies).0)
  {
    hide Answered, Converse, OpenUntil, Step;
    var sent := Converse(hash, host, replies).0;
    SentIs(hash, host, replies, 0);
    assert After(hash, host, replies[..0]) == host;
    forall i | 0 <= i < |replies| && OpenUntil(replies, i + 1)
      ensures AnsweredAt(hash, host.data, replies, sent, i)
    {
      ContinuesIsKnown(replies, i + 1);
      SentIs(hash, host, replies, i + 1);
      assert replies[..i + 1] == replies[..i] + [replies[i]];
      AfterAppend(hash, host, replies[..i], replies[i]);
      StepAnswers(hash, host, replies[..i], replies[i]);
    }
  }

  lemma StepAnswers(hash: Data -> Data, host: Host, replies: seq<Data>, rv: Data)
    requires (forall i :: 0 <= i < |replies| ==> Known(replies[i])) && Known(rv) && !Final(rv)
    ensures Answered(hash, host.data, replies, rv, Step(hash, After(hash, host, replies), rv).payload)
  {
    hide Holds;
    var key := Body(rv);
    DataIs(hash, host, replies, key);
    hide After, Put;
    var data := After(hash, host, replies).data;
    assert forall other :: Says(rv, 2, other) ==> other == key;
    assert key in data ==> Holds(hash, host.data, replies, key, data[key]);
  }

  // ---------- Blocks that are stored, and the blocks of the payloads ----------

  lemma MessageAfter(hash: Data -> Data, host: Host, replies: seq<Data>, i: nat, key: Data, all: set<Data>)
    requires i < |replies| && (forall k :: 0 <= k <= i ==> Known(replies[k]) && !Final(replies[k]))
    requires Says(replies[i], 2, key)
    requires GoodHash(hash, all) && Addressed(hash, host.data, all) && PutBlocks(replies[..i]) <= all
    ensures var (sent, data) := (Converse(hash, host, replies).0, After(hash, host, replies[..i]).data);
            && i + 1 < |sent| && Addressed(hash, data, all) && Extends(host.data, data)
            && (key in data ==> sent[i + 1] == [1] + data[key])
  {
    hide GoodHash, Addressed, Extends, PutBlocks, Holds;
    ConversationIsDialogue(hash, host, replies);
    assert OpenUntil(replies, i + 1);
    RunKeepsBlocks(hash, host, replies[..i], all);
    DataIs(hash, host, replies[..i], key);
    hide After, Converse, Says;
    var (sent, data) := (Converse(hash, host, replies).0, After(hash, host, replies[..i]).data);
    assert AnsweredAt(hash, host.data, replies, sent, i);
    assert key in data ==> Holds(hash, host.data, replies[..i], key, data[key]);
  }

  /** A request for the key of a block that the host holds at the start is answered with that block, at
      every point of every conversation. */
  lemma StoredBlockIsAnswered(hash: Data -> Data, host: Host, replies: seq<Data>, all: set<Data>, key: Data, i: nat)
    requires i < |replies| && OpenUntil(replies, i + 1) && Says(replies[i], 2, key)
    requires GoodHash(hash, all) && Addressed(hash, host.data, all) && PutBlocks(replies[..i]) <= all
    requires key in host.data
    ensures var sent := Converse(hash, host, replies).0; i + 1 < |sent| && sent[i + 1] == [1] + host.data[key]
  {
    ContinuesIsKnown(replies, i + 1);
    hide GoodHash, Addressed, PutBlocks, Converse, Says, After, OpenUntil;
    MessageAfter(hash, host, replies, i, key, all);
  }

  /** A request for the hash of a block that was put before is answered with that block. */
  lemma PutBlockIsAnswered(hash: Data -> Data, host: Host, replies: seq<Data>, all: set<Data>, block: Data, p: nat,
                           i: nat)
    requires p < i < |replies| && OpenUntil(replies, i + 1)
    requires Says(replies[p], 3, block) && Says(replies[i], 2, hash(block))
    requires GoodHash(hash, all) && Addressed(hash, host.data, all) && PutBlocks(replies[..i]) <= all
    ensures var sent := Converse(hash, host, replies).0; i + 1 < |sent| && sent[i + 1] == [1] + block
  {
    ContinuesIsKnown(replies, i + 1);
    MessageAfter(hash, host, replies, i, hash(block), all);
    HeldAfterPut(hash, host, replies[..i], block, p);
    assert Body(replies[p]) == block;
    assert replies[..i][p] == replies[p];
    assert block in PutBlocks(replies[..i]);
    hide Says, Converse, After, PutBlocks;
  }

  lemma {:induction false} HeldAfterPut(hash: Data -> Data, host: Host, replies: seq<Data>, block: Data, p: nat)
    requires (forall k :: 0 <= k < |replies| ==> Known(replies[k])) && p < |replies| && Says(replies[p], 3, block)
    ensures hash(block) in After(hash, host, replies).data
    decreases |replies|
  {
    var n := |replies| - 1;
    assert replies == replies[..n] + [replies[n]];
    if p < n {
      HeldAfterPut(hash, host, replies[..n], block, p);
    }
    AfterAppend(hash, host, replies[..n], replies[n]);
    hide After;
  }

  // ---------- A device that reads a payload ----------

  /** The bytes of a message at some place, none if it ends before it. */
  ghost function Slice(message: Data, from: nat, to: nat): Data
    requires from <= to
  {
    if to <= |message| then message[from..to] else []
  }

  /** The replies at these places are requests, the first one for the key, and every other one for the
      bytes 1 to 32 of the message that answered the one before. */
  ghost predicate Follows(sent: seq<Data>, replies: seq<Data>, gets: seq<nat>, key: Data)
    decreases |gets|
  {
    gets == [] || (gets[0] < |replies| && Says(replies[gets[0]], 2, key)
        && gets[0] + 1 < |sent| && Follows(sent, replies, gets[1..], Slice(sent[gets[0] + 1], 1, 33)))
  }

  lemma {:induction false} FollowsChain(hash: Data -> Data, host: Host, replies: seq<Data>, all: set<Data>,
                                        gets: seq<nat>, key: Data, chunks: seq<Data>)
    requires OpenUntil(replies, |replies|)
    requires GoodHash(hash, all) && Addressed(hash, host.data, all) && PutBlocks(replies) <= all
    requires Chain(host.data, key, chunks) && |gets| <= |chunks|
    requires Follows(Converse(hash, host, replies).0, replies, gets, key)
    ensures var sent := Converse(hash, host, replies).0;
            forall k :: 0 <= k < |gets| ==>
              && gets[k] + 1 < |sent| && |sent[gets[k] + 1]| >= 33
              && sent[gets[k] + 1][0] == 1 && sent[gets[k] + 1][33..] == chunks[k]
              && (sent[gets[k] + 1][1..33] == Zero() <==> k == |chunks| - 1)
    decreases |gets|
  {
    hide GoodHash, Addressed, PutBlocks, Converse, Says;
    if gets != [] {
      var sent := Converse(hash, host, replies).0;
      PutBlocksBefore(replies, gets[0]);
      StoredBlockIsAnswered(hash, host, replies, all, key, gets[0]);
      var (block, message) := (host.data[key], sent[gets[0] + 1]);
      assert message[1..33] == block[..32] && message[33..] == block[32..];
      FollowsChain(hash, host, replies, all, gets[1..], block[..32], chunks[1..]);
      forall k | 0 <= k < |gets|
        ensures && gets[k] + 1 < |sent| && |sent[gets[k] + 1]| >= 33
                && sent[gets[k] + 1][0] == 1 && sent[gets[k] + 1][33..] == chunks[k]
                && (sent[gets[k] + 1][1..33] == Zero() <==> k == |chunks| - 1)
      {
        if k > 0 {
          assert gets[k] == gets[1..][k - 1] && chunks[k] == chunks[1..][k - 1];
        }
      }
    }
  }

  lemma PutBlocksBefore(replies: seq<Data>, i: nat)
    requires i <= |replies|
    ensures PutBlocks(replies[..i]) <= PutBlocks(replies)
  {
    forall b | b in PutBlocks(replies[..i]) ensures b in PutBlocks(replies) {
      var k :| 0 <= k < i && replies[..i][k] != [] && replies[..i][k][0] == PUT_CHUNK && b == Body(replies[..i][k]);
      assert replies[k] == replies[..i][k];
    }
  }

  /** Parts of 32 bytes, one after the other. */
  lemma {:induction false} PartAt(parts: seq<Data>, j: nat)
    requires (forall k :: 0 <= k < |parts| ==> |parts[k]| == 32) && j < |parts|
    ensures |Concatenate(parts)| == 32 * |parts|
    ensures Concatenate(parts)[32 * j..32 * j + 32] == parts[j]
    decreases |parts|
  {
    var rest := parts[1..];
    if rest == [] {
      assert Concatenate(rest) == [];
    } else {
      PartAt(rest, if j == 0 then 0 else j - 1);
      var all := Concatenate(parts);
      assert all == parts[0] + Concatenate(rest);
      hide Concatenate;
      if j > 0 {
        assert all[32 * j..32 * j + 32] == Concatenate(rest)[32 * (j - 1)..32 * (j - 1) + 32];
      }
    }
  }

  /** The first message is 0 and the pointers of the payloads, 32 bytes each. */
  lemma PointersInFirstMessage(hash: Data -> Data, payloads: seq<Data>, extraData: Blocks, all: set<Data>, j: nat)
    requires GoodHash(hash, all) && Addressed(hash, extraData, all) && AllBlocks(hash, payloads) <= all
    requires j < |payloads|
    ensures var heads := LinkAll(hash, payloads, extraData).0;
            var message := [START] + Concatenate(heads);
            |message| == 1 + 32 * |payloads| && message[0] == 0 && Slice(message, 1 + 32 * j, 33 + 32 * j) == heads[j]
  {
    hide Addressed, AllBlocks, Chain, Concatenate, LinkAll, Chunks, Extends;
    LinkAllKeeps(hash, payloads, extraData, all);
    var heads := LinkAll(hash, payloads, extraData).0;
    forall k | 0 <= k < |heads| ensures |heads[k]| == 32 {
      HeadSize(hash, Chunks(payloads[k]), all);
    }
    PartAt(heads, j);
    var message := [START] + Concatenate(heads);
    assert message[1 + 32 * j..33 + 32 * j] == Concatenate(heads)[32 * j..32 * j + 32];
  }

  /** A device reads payload j: it asks for the j-th pointer of the first message, and then for the
      pointer in each answer. The k-th answer is 1, a pointer of 32 bytes, and the bytes of the payload
      from 180 * k to 180 * (k + 1) or its end; the pointer is zero exactly in the answer that holds the
      end, and the j-th pointer of the first message is zero exactly for an empty payload. Whatever else
      the device asks for, puts or returns in between makes no difference. */
  lemma DeviceReadsPayload(hash: Data -> Data, payloads: seq<Data>, extraData: Blocks, replies: seq<Data>,
                           all: set<Data>, j: nat, gets: seq<nat>)
    requires OpenUntil(replies, |replies|)
    requires GoodHash(hash, all) && Addressed(hash, extraData, all)
    requires AllBlocks(hash, payloads) <= all && PutBlocks(replies) <= all
    requires j < |payloads| && |gets| <= (|payloads[j]| + 179) / 180
    requires var (heads, data) := LinkAll(hash, payloads, extraData);
             var sent := Converse(hash, Host([START] + Concatenate(heads), [], data), replies).0;
             sent != [] && Follows(sent, replies, gets, Slice(sent[0], 1 + 32 * j, 33 + 32 * j))
    ensures var (heads, data) := LinkAll(hash, payloads, extraData);
            var sent := Converse(hash, Host([START] + Concatenate(heads), [], data), replies).0;
            var payload := payloads[j];
            && (Slice(sent[0], 1 + 32 * j, 33 + 32 * j) == seq(32, _ => 0) <==> payload == [])
            && forall k :: 0 <= k < |gets| ==>
                 && gets[k] + 1 < |sent| && |sent[gets[k] + 1]| >= 33 && sent[gets[k] + 1][0] == 1
                 && 180 * k < |payload|
                 && sent[gets[k] + 1][33..] == payload[180 * k..Min(180 * k + 180, |payload|)]
                 && (sent[gets[k] + 1][1..33] == seq(32, _ => 0) <==> 180 * k + 180 >= |payload|)
  {
    var (heads, data) := LinkAll(hash, payloads, extraData);
    var host := Host([START] + Concatenate(heads), [], data);
    var sent := Converse(hash, host, replies).0;
    var chunks := Chunks(payloads[j]);
    SentIs(hash, host, replies, 0);
    assert After(hash, host, replies[..0]) == host;
    PointersInFirstMessage(hash, payloads, extraData, all, j);
    LinkAllKeeps(hash, payloads, extraData, all);
    ChunksRestorePayload(payloads[j]);
    assert Chain(data, heads[j], chunks);
    assert Zero() == seq(32, _ => 0);
    hide GoodHash, Addressed, AllBlocks, PutBlocks, Chunks, Extends, Converse, Says, Concatenate, LinkAll, Slice, After;
    FollowsChain(hash, host, replies, all, gets, heads[j], chunks);
    hide Chain, Follows, OpenUntil, Zero;
    forall k | 0 <= k < |gets|
      ensures 180 * k < |payloads[j]| && chunks[k] == payloads[j][180 * k..Min(180 * k + 180, |payloads[j]|)]
      ensures k == |chunks| - 1 <==> 180 * k + 180 >= |payloads[j]|
    {
      assert k < |chunks|;
    }
  }

  // ---------- The result ----------

  /** The bodies of the result packets, in order. */
  function ResultPackets(replies: seq<Data>): seq<Data> {
    if replies == [] then []
    else if replies[0] != [] && replies[0][0] <= 1 then [Inside(replies[0])] + ResultPackets(replies[1..])
    else ResultPackets(replies[1..])
  }

  lemma OpenAfterFirst(replies: seq<Data>, n: nat)
    requires 0 < n <= |replies| && OpenUntil(replies, n)
    ensures Continues(replies[0]) && OpenUntil(replies[1..], n - 1)
  {
    assert forall k :: 0 <= k < n - 1 ==> replies[1..][k] == replies[k + 1];
  }

  /** A conversation that reaches a final packet without an unknown instruction before it returns the
      concatenation of the result packets up to that one; later replies are not asked for. */
  lemma {:induction false} ResultIsConcatenation(hash: Data -> Data, host: Host, replies: seq<Data>, last: nat)
    requires last < |replies| && replies[last] != [] && replies[last][0] == 1 && OpenUntil(replies, last)
    ensures Converse(hash, host, replies).1 == Success(host.result + Concatenate(ResultPackets(replies[..last + 1])))
    ensures |Converse(hash, host, replies).0| == last + 1
    decreases last
  {
    var next := Step(hash, host, replies[0]);
    var packets := replies[..last + 1];
    assert packets[1..] == replies[1..][..last];
    if last == 0 {
      assert ResultPackets(packets[1..]) == [];
      assert ResultPackets(packets) == [Body(replies[0])];
      assert Concatenate([Body(replies[0])]) == Body(replies[0]) + Concatenate([]) == Body(replies[0]);
    } else {
      OpenAfterFirst(replies, last);
      ResultIsConcatenation(hash, next, replies[1..], last - 1);
      var rest := ResultPackets(packets[1..]);
      if replies[0][0] == RESULT_ACCUMULATING {
        assert ResultPackets(packets) == [Body(replies[0])] + rest;
        assert Concatenate([Body(replies[0])] + rest) == Body(replies[0]) + Concatenate(rest);
        assert (host.result + Body(replies[0])) + Concatenate(rest)
            == host.result + (Body(replies[0]) + Concatenate(rest));
      }
    }
  }

  /** A conversation whose first reply with an unknown instruction comes before any final packet fails
      there, without another message. */
  lemma {:induction false} UnknownInstructionFails(hash: Data -> Data, host: Host, replies: seq<Data>, bad: nat)
    requires bad < |replies| && (replies[bad] == [] || replies[bad][0] > 3) && OpenUntil(replies, bad)
    ensures Converse(hash, host, replies).1 == Failure(UnknownInstruction)
    ensures |Converse(hash, host, replies).0| == bad + 1
    decreases bad
  {
    if bad > 0 {
      OpenAfterFirst(replies, bad);
      UnknownInstructionFails(hash, Step(hash, host, replies[0]), replies[1..], bad - 1);
    }
  }
}
