/** Splitting a zone transfer over messages (_chunk_axfr in rangefinder/facades/dns.py; section 2.2 of
    RFC 5936). */
module DnsTransfer {
  import opened Prelude
  import opened Octets
  import opened DnsName
  import opened DnsMessage
  import opened DnsReply

  const LIMIT := 65000
  const TRANSFER_FLAGS := 0x8400

  /** The encoded records that share one message. */
  type Block = seq<seq<Byte>>

  /** The bytes a block takes. */
  function Size(block: Block): nat {
    if block == [] then 0 else Size(block[..|block| - 1]) + |block[|block| - 1]|
  }

  /** Within the limit, beside a header and question of `base` bytes; a record alone always goes. */
  predicate Fits(base: nat, block: Block) {
    |block| <= 1 || base + Size(block) <= LIMIT
  }

  ghost predicate AllFit(base: nat, blocks: seq<Block>) {
    forall k :: 0 <= k < |blocks| ==> Fits(base, blocks[k])
  }

  /** Fill a block until the next record would pass the limit; the last one always goes out. */
  function Chunks(base: nat, cur: Block, rrs: Block): (blocks: seq<Block>)
    decreases |rrs|
  {
    if rrs == [] then [cur]
    else if cur != [] && base + Size(cur) + |rrs[0]| > LIMIT then [cur] + Chunks(base, [rrs[0]], rrs[1..])
    else Chunks(base, cur + [rrs[0]], rrs[1..])
  }

  /** A record takes at least eleven bytes (RecordIsElevenBytes). */
  ghost predicate AreRecords(rrs: Block) {
    forall k :: 0 <= k < |rrs| ==> |rrs[k]| >= 11
  }

  predicate Countable(blocks: seq<Block>) {
    forall k :: 0 <= k < |blocks| ==> |blocks[k]| < 0x1_0000
  }

  /** One message: its count is the number of records it carries. */
  function Message(id: seq<Byte>, question: seq<Byte>, block: Block): seq<Byte>
    requires |block| < 0x1_0000
  {
    Header(id, TRANSFER_FLAGS, |block|) + question + Concat(block)
  }

  function Messages(id: seq<Byte>, question: seq<Byte>, blocks: seq<Block>): seq<seq<Byte>>
    requires Countable(blocks)
  {
    seq(|blocks|, k requires 0 <= k < |blocks| => Message(id, question, blocks[k]))
  }

  /** The loop over the records, with the block being filled and its size. */
  method ChunkAxfr(id: seq<Byte>, question: seq<Byte>, rrs: Block) returns (messages: seq<seq<Byte>>)
    requires AreRecords(rrs)
    ensures var blocks := Chunks(12 + |question|, [], rrs);
            Countable(blocks) && messages == Messages(id, question, blocks)
  {
    var base := 12 + |question|;
    messages := [];
    var cur: Block, size := [], base;
    ghost var blocks: seq<Block> := [];
    assert rrs[0..] == rrs;
    for i := 0 to |rrs|
      invariant Filling(base, blocks, cur, rrs, i) && size == base + Size(cur)
      invariant AreRecords(cur) && Fits(base, cur)
      invariant Countable(blocks) && messages == Messages(id, question, blocks)
    {
      FillOne(base, blocks, cur, rrs, i);
      if cur != [] && size + |rrs[i]| > LIMIT {
        CountIsSmall(base, cur);
        OneMoreMessage(id, question, blocks, cur);
        messages, blocks := messages + [Message(id, question, cur)], blocks + [cur];
        cur, size := [], base;
      }
      cur, size := cur + [rrs[i]], size + |rrs[i]|;
    }
    CountIsSmall(base, cur);
    OneMoreMessage(id, question, blocks, cur);
    messages := messages + [Message(id, question, cur)];
  }

  /** The blocks sent and the one being filled are what the whole split has so far. */
  ghost predicate Filling(base: nat, blocks: seq<Block>, cur: Block, rrs: Block, i: nat)
    requires i <= |rrs|
  {
    Chunks(base, [], rrs) == blocks + Chunks(base, cur, rrs[i..])
  }

  lemma FillOne(base: nat, blocks: seq<Block>, cur: Block, rrs: Block, i: nat)
    requires i < |rrs| && Filling(base, blocks, cur, rrs, i)
    ensures if cur != [] && base + Size(cur) + |rrs[i]| > LIMIT
            then Filling(base, blocks + [cur], [] + [rrs[i]], rrs, i + 1) && Size([] + [rrs[i]]) == |rrs[i]|
            else Filling(base, blocks, cur + [rrs[i]], rrs, i + 1) && Size(cur + [rrs[i]]) == Size(cur) + |rrs[i]|
  {
    assert rrs[i..][1..] == rrs[i + 1..] && [] + [rrs[i]] == [rrs[i]];
    assert (cur + [rrs[i]])[..|cur|] == cur;
    if cur != [] && base + Size(cur) + |rrs[i]| > LIMIT {
      var rest := Chunks(base, [rrs[i]], rrs[i + 1..]);
      assert blocks + ([cur] + rest) == (blocks + [cur]) + rest;
    }
  }

  lemma OneMoreMessage(id: seq<Byte>, question: seq<Byte>, blocks: seq<Block>, block: Block)
    requires Countable(blocks) && |block| < 0x1_0000
    ensures Countable(blocks + [block])
    ensures Messages(id, question, blocks + [block]) == Messages(id, question, blocks) + [Message(id, question, block)]
  {}

  // ---------------------------------------------------------------- what the split keeps

  lemma {:induction false} SizeAtLeast(block: Block)
    requires AreRecords(block)
    ensures Size(block) >= 11 * |block|
    decreases |block|
  {
    if block != [] { SizeAtLeast(block[..|block| - 1]); }
  }

  /** A block that fits cannot overflow the 16-bit count of its message. */
  lemma CountIsSmall(base: nat, block: Block)
    requires AreRecords(block) && Fits(base, block)
    ensures |block| < 0x1_0000
  {
    SizeAtLeast(block);
  }

  /** Nothing lost, added or reordered; every message within the limit unless it holds a single record;
      none empty unless there is nothing to send. */
  lemma {:induction false} ChunksConserve(base: nat, cur: Block, rrs: Block)
    requires Fits(base, cur)
    ensures var blocks := Chunks(base, cur, rrs);
            Concat(blocks) == cur + rrs && AllFit(base, blocks) && blocks != []
            && (cur + rrs != [] ==> [] !in blocks)
    decreases |rrs|
  {
    if rrs == [] {
      assert Concat([cur]) == cur + Concat([]) == cur;
    } else {
      assert cur + rrs == cur + [rrs[0]] + rrs[1..];
      assert (cur + [rrs[0]])[..|cur|] == cur;
      if cur != [] && base + Size(cur) + |rrs[0]| > LIMIT {
        ChunksConserve(base, [rrs[0]], rrs[1..]);
        assert [rrs[0]] + rrs[1..] == rrs;
      } else {
        ChunksConserve(base, cur + [rrs[0]], rrs[1..]);
      }
    }
  }

  lemma {:induction false} SizeOfPart(whole: Block, i: nat, j: nat)
    requires i <= j <= |whole|
    ensures Size(whole[i..j]) <= Size(whole)
    decreases |whole|
  {
    var n := |whole|;
    if j < n {
      assert whole[i..j] == whole[..n - 1][i..j];
      SizeOfPart(whole[..n - 1], i, j);
    } else if i < j {
      assert whole[i..j][..j - i - 1] == whole[..n - 1][i..n - 1];
      SizeOfPart(whole[..n - 1], i, n - 1);
    }
  }

  /** A first message that reaches past `cur` holds all of it and the record after it. */
  lemma LongHoldsNext(before: Block, cur: Block, rrs: Block, first: Block, rest: Block)
    requires rrs != [] && first + rest == before + cur + rrs && |first| > |before + cur|
    ensures |cur| < |first| && Size(cur + [rrs[0]]) <= Size(first)
  {
    var all, low, high := before + cur + rrs, |before|, |before + cur| + 1;
    SizeOfPart(first, low, high);
    assert first[low..high] == (first + rest)[low..high] && all[low..high] == cur + [rrs[0]];
  }

  /** A message that fits cannot hold all of `cur` and the record after it, when those do not fit. */
  lemma FirstEndsBefore(base: nat, before: Block, cur: Block, rrs: Block, first: Block, rest: Block)
    requires rrs != [] && first + rest == before + cur + rrs
    requires Fits(base, first) && !Fits(base, cur + [rrs[0]])
    ensures |first| <= |before + cur| && rest == (before + cur)[|first|..] + rrs
  {
    if |first| > |before + cur| { LongHoldsNext(before, cur, rrs, first, rest); }
    assert rest == (first + rest)[|first|..]
        && (before + cur + rrs)[|first|..] == (before + cur)[|first|..] + rrs;
  }

  /** The greedy split stays ahead: no other split that fits, of these records and perhaps more before
      them, has fewer messages. */
  lemma {:induction false} GreedyStaysAhead(base: nat, before: Block, cur: Block, rrs: Block, other: seq<Block>)
    requires other != [] && AllFit(base, other) && Concat(other) == before + cur + rrs
    ensures |Chunks(base, cur, rrs)| <= |other|
    decreases |rrs|
  {
    if rrs != [] {
      var next := cur + [rrs[0]];
      assert rrs == [rrs[0]] + rrs[1..];
      assert before + cur + rrs == before + next + rrs[1..];
      if cur != [] && base + Size(cur) + |rrs[0]| > LIMIT {
        var first, rest := other[0], Concat(other[1..]);
        assert Fits(base, first) && (cur + [rrs[0]])[..|cur|] == cur;
        FirstEndsBefore(base, before, cur, rrs, first, rest);
        var skipped := (before + cur)[|first|..];
        assert skipped + [rrs[0]] + rrs[1..] == skipped + ([rrs[0]] + rrs[1..]);
        GreedyStaysAhead(base, skipped, [rrs[0]], rrs[1..], other[1..]);
      } else {
        GreedyStaysAhead(base, before, next, rrs[1..], other);
      }
    }
  }

  /** No order-preserving split of the records into messages that fit has fewer messages. */
  lemma ChunksAreFewest(base: nat, rrs: Block, other: seq<Block>)
    requires other != [] && AllFit(base, other) && Concat(other) == rrs
    ensures |Chunks(base, [], rrs)| <= |other|
  {
    assert [] + [] + rrs == rrs;
    GreedyStaysAhead(base, [], [], rrs, other);
  }

  // ---------------------------------------------------------------- what a client receives

  /** The answers of all messages, in order, each message read on its own. */
  function ReadTransfer(messages: seq<seq<Byte>>, question: seq<Byte>): Option<seq<Record>> {
    if messages == [] then Some([]) else
      match ReadReply(messages[0])
      case None => None
      case Some(reading) =>
        match ReadTransfer(messages[1..], question)
        case None => None
        case Some(rest) => if reading.question == question then Some(reading.answers + rest) else None
  }

  lemma {:induction false} EachAt(records: seq<Record>, k: nat)
    requires k < |records|
    ensures |EncodeEach(records)| == |records| && EncodeEach(records)[k] == Wire(records[k])
    decreases k
  {
    EachIsOne(records);
    if k > 0 { EachAt(records[1..], k - 1); }
  }

  /** Encoding record by record goes along with cutting the list. */
  lemma EachOf(records: seq<Record>, n: nat)
    requires n <= |records|
    ensures |EncodeEach(records)| == |records|
    ensures EncodeEach(records)[..n] == EncodeEach(records[..n]) && EncodeEach(records)[n..] == EncodeEach(records[n..])
  {
    var all, front, back := EncodeEach(records), EncodeEach(records[..n]), EncodeEach(records[n..]);
    EachIsOne(records);
    EachIsOne(records[..n]);
    EachIsOne(records[n..]);
    forall k | 0 <= k < n ensures all[k] == front[k] {
      EachAt(records, k);
      EachAt(records[..n], k);
    }
    forall k | 0 <= k < |back| ensures all[n + k] == back[k] {
      EachAt(records, n + k);
      EachAt(records[n..], k);
    }
    assert all[..n] == front && all[n..] == back;
  }

  predicate TransferReads(messages: seq<seq<Byte>>, question: seq<Byte>, records: seq<Record>) {
    ReadTransfer(messages, question) == Some(records)
  }

  lemma {:induction false} BlocksReadBack(id: seq<Byte>, qname: string, tail: seq<Byte>, blocks: seq<Block>,
                                          records: seq<Record>)
    requires |id| == 2 && |tail| == 4 && PlainName(qname) && WireName(qname).Some? && Countable(blocks)
    requires AllWritable(records)
    requires Concat(blocks) == EncodeEach(records)
    ensures var question := WireName(qname).value + tail;
            TransferReads(Messages(id, question, blocks), question, records)
    decreases |blocks|
  {
    var question := WireName(qname).value + tail;
    EachIsOne(records);
    if blocks != [] {
      var n := |blocks[0]|;
      FirstBlock(blocks, records);
      MessageReadsBack(id, TRANSFER_FLAGS, qname, tail, records[..n]);
      BlocksReadBack(id, qname, tail, blocks[1..], records[n..]);
      MessagesAfterFirst(id, question, blocks);
      ReadFirst(Messages(id, question, blocks), question, TRANSFER_FLAGS, id, qname, records, n);
    }
  }

  lemma MessagesAfterFirst(id: seq<Byte>, question: seq<Byte>, blocks: seq<Block>)
    requires Countable(blocks) && blocks != []
    ensures var messages := Messages(id, question, blocks);
            messages[0] == Message(id, question, blocks[0]) && messages[1..] == Messages(id, question, blocks[1..])
  {}

  lemma FirstBlock(blocks: seq<Block>, records: seq<Record>)
    requires blocks != [] && Concat(blocks) == EncodeEach(records)
    ensures var n := |blocks[0]|;
            n <= |records| && blocks[0] == EncodeEach(records[..n]) && Concat(blocks[1..]) == EncodeEach(records[n..])
  {
    var all, first, rest := EncodeEach(records), blocks[0], Concat(blocks[1..]);
    EachIsOne(records);
    assert first + rest == all;
    EachOf(records, |first|);
    assert first == all[..|first|] && rest == all[|first|..];
  }

  lemma ReadFirst(messages: seq<seq<Byte>>, question: seq<Byte>, flags: nat, id: seq<Byte>, qname: string,
                  records: seq<Record>, n: nat)
    requires messages != [] && n <= |records| && TransferReads(messages[1..], question, records[n..])
    requires ReadsReply(messages[0], Reading(id, flags, question, qname, records[..n]))
    ensures TransferReads(messages, question, records)
  {
    CutJoins(records, n);
    ReadBoth(messages, question, Reading(id, flags, question, qname, records[..n]), records[n..]);
  }

  lemma ReadBoth(messages: seq<seq<Byte>>, question: seq<Byte>, r: Reading, rest: seq<Record>)
    requires messages != [] && ReadsReply(messages[0], r) && r.question == question
    requires TransferReads(messages[1..], question, rest)
    ensures TransferReads(messages, question, r.answers + rest)
  {}

  lemma {:induction false} EncodedAreRecords(records: seq<Record>)
    requires forall k :: 0 <= k < |records| ==> EncodeRecord(records[k]).Some?
    ensures AreRecords(EncodeEach(records))
    decreases |records|
  {
    if records != [] {
      RecordIsElevenBytes(records[0]);
      EncodedAreRecords(records[1..]);
    }
  }

  lemma {:induction false} CountableBlocks(base: nat, cur: Block, rrs: Block)
    requires AreRecords(rrs) && AreRecords(cur) && Fits(base, cur)
    ensures Countable(Chunks(base, cur, rrs))
    decreases |rrs|
  {
    CountIsSmall(base, cur);
    if rrs != [] {
      assert (cur + [rrs[0]])[..|cur|] == cur;
      if cur != [] && base + Size(cur) + |rrs[0]| > LIMIT {
        CountableBlocks(base, [rrs[0]], rrs[1..]);
      } else {
        CountableBlocks(base, cur + [rrs[0]], rrs[1..]);
      }
    }
  }

  /** A client that reads every message of a transfer gets the zone's records, in order, and the question
      each time. */
  lemma TransferReadsBack(id: seq<Byte>, qname: string, tail: seq<Byte>, records: seq<Record>)
    requires |id| == 2 && |tail| == 4 && PlainName(qname) && WireName(qname).Some?
    requires AllWritable(records)
    ensures var question := WireName(qname).value + tail;
            var blocks := Chunks(12 + |question|, [], EncodeEach(records));
            Countable(blocks) && ReadTransfer(Messages(id, question, blocks), question) == Some(records)
  {
    var base := 12 + |WireName(qname).value + tail|;
    EncodedAreRecords(records);
    CountableBlocks(base, [], EncodeEach(records));
    ChunksConserve(base, [], EncodeEach(records));
    BlocksReadBack(id, qname, tail, Chunks(base, [], EncodeEach(records)), records);
  }

  // ---------------------------------------------------------------- the length prefix of each message

  lemma {:induction false} ConcatLast(block: Block)
    requires block != []
    ensures |Concat(block)| == |Concat(block[..|block| - 1])| + |block[|block| - 1]|
    decreases |block|
  {
    if |block| == 1 {
      assert block[1..] == [] && block[..0] == [];
    } else {
      ConcatLast(block[1..]);
      assert block[1..][..|block| - 2] == block[..|block| - 1][1..];
    }
  }

  lemma {:induction false} SizeIsLength(block: Block)
    ensures Size(block) == |Concat(block)|
  {
    if block != [] {
      SizeIsLength(block[..|block| - 1]);
      ConcatLast(block);
    }
  }

  /** Each item of a joined list is an item of one of its parts. */
  lemma {:induction false} InSomeBlock(blocks: seq<Block>, k: nat) returns (b: nat, i: nat)
    requires k < |Concat(blocks)|
    ensures b < |blocks| && i < |blocks[b]| && blocks[b][i] == Concat(blocks)[k]
    decreases |blocks|
  {
    if k < |blocks[0]| {
      b, i := 0, k;
    } else {
      b, i := InSomeBlock(blocks[1..], k - |blocks[0]|);
      b := b + 1;
    }
  }

  lemma SizeCovers(block: Block, i: nat)
    requires i < |block|
    ensures |block[i]| <= Size(block)
  {
    SizeOfPart(block, i, i + 1);
    assert block[i..i + 1][..0] == [] && block[i..i + 1][0] == block[i];
    assert Size([]) == 0;
  }

  /** The message goes out behind a length of two bytes. */
  predicate Framed(message: seq<Byte>) {
    |message| < 0x1_0000
  }

  lemma MessageLength(id: seq<Byte>, question: seq<Byte>, block: Block)
    requires |id| == 2 && |block| < 0x1_0000
    ensures |Message(id, question, block)| == 12 + |question| + Size(block)
  {
    SizeIsLength(block);
  }

  /** Every message of a transfer has a length that two bytes hold exactly when every record would, alone in
      its message. */
  lemma FramedIff(id: seq<Byte>, question: seq<Byte>, rrs: Block)
    requires |id| == 2 && AreRecords(rrs) && 12 + |question| < 0x1_0000
    ensures var blocks := Chunks(12 + |question|, [], rrs);
            && Countable(blocks)
            && ((forall k :: 0 <= k < |blocks| ==> Framed(Messages(id, question, blocks)[k])) <==>
                forall k :: 0 <= k < |rrs| ==> 12 + |question| + |rrs[k]| < 0x1_0000)
  {
    var base, blocks := 12 + |question|, Chunks(12 + |question|, [], rrs);
    CountableBlocks(base, [], rrs);
    ChunksConserve(base, [], rrs);
    assert [] + rrs == rrs;
    forall k | 0 <= k < |blocks| ensures |Messages(id, question, blocks)[k]| == base + Size(blocks[k]) {
      MessageLength(id, question, blocks[k]);
    }
    if forall k :: 0 <= k < |rrs| ==> base + |rrs[k]| < 0x1_0000 {
      forall k | 0 <= k < |blocks| ensures base + Size(blocks[k]) < 0x1_0000 {
        BlockIsFramed(base, rrs, blocks, k);
      }
    } else {
      var k :| 0 <= k < |rrs| && base + |rrs[k]| >= 0x1_0000;
      var b, i := InSomeBlock(blocks, k);
      SizeCovers(blocks[b], i);
      assert !Framed(Messages(id, question, blocks)[b]);
    }
  }

  lemma BlockIsFramed(base: nat, rrs: Block, blocks: seq<Block>, k: nat)
    requires k < |blocks| && AllFit(base, blocks) && Concat(blocks) == rrs && base < 0x1_0000
    requires forall i :: 0 <= i < |rrs| ==> base + |rrs[i]| < 0x1_0000
    ensures base + Size(blocks[k]) < 0x1_0000
  {
    assert Fits(base, blocks[k]);
    if |blocks[k]| == 1 {
      var i := PlaceOf(blocks, k, 0);
      assert blocks[k][..0] == [] && Size([]) == 0;
    }
  }

  lemma {:induction false} PlaceOf(blocks: seq<Block>, b: nat, i: nat) returns (k: nat)
    requires b < |blocks| && i < |blocks[b]|
    ensures k < |Concat(blocks)| && Concat(blocks)[k] == blocks[b][i]
    decreases b
  {
    if b == 0 {
      k := i;
    } else {
      k := PlaceOf(blocks[1..], b - 1, i);
      k := |blocks[0]| + k;
    }
  }
}
