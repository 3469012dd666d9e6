/** `Huffman::encode` and `Huffman::decode`: the container is one header byte
    holding the serialised table's length, the serialised table, then the
    packed code bits of the message. */
module Huffman {
  import opened Bytes
  import opened TranslationTable
  import opened BitPacking
  import opened HuffmanTree
  import opened GreedyScan

  /** `translation[byte]` as a value: the code, or `""` for a missing key. */
  function Lookup(t: Table, b: byte): Code
  {
    if b in t then t[b] else []
  }

  /** The string built by `encoded_message += translation[byte]`. */
  function TranslateBits(message: seq<byte>, t: Table): Code
    decreases |message|
  {
    if message == [] then []
    else TranslateBits(message[..|message| - 1], t) + Lookup(t, message[|message| - 1])
  }

  /** The table after `translation[byte]` has inserted `""` for every byte of
      `message` that was not a key. */
  function WithDefaults(t: Table, message: seq<byte>): Table
  {
    map b: byte | b in t || b in message :: Lookup(t, b)
  }

  /** The translation loop of `encode`; `operator[]` may insert keys, so the
      table comes back as well. */
  method Translate(message: seq<byte>, translation: Table) returns (bits: Code, table: Table)
    ensures bits == TranslateBits(message, translation)
    ensures table == WithDefaults(translation, message)
  {
    bits := [];
    table := translation;
    for i := 0 to |message|
      invariant bits == TranslateBits(message[..i], translation)
      invariant table == WithDefaults(translation, message[..i])
    {
      var b := message[i];
      TranslateStep(message, translation, i);
      if b !in table {
        table := table[b := []];
      }
      bits := bits + table[b];
    }
    assert message[..|message|] == message;
  }

  /** Translating one more byte appends its code and makes it a key. */
  lemma TranslateStep(message: seq<byte>, t: Table, i: nat)
    requires i < |message|
    ensures TranslateBits(message[..i + 1], t) == TranslateBits(message[..i], t) + Lookup(t, message[i])
    ensures WithDefaults(t, message[..i + 1]) == WithDefaults(t, message[..i])[message[i] := Lookup(t, message[i])]
  {
    assert message[..i + 1][..i] == message[..i];
    assert message[..i + 1] == message[..i] + [message[i]];
  }

  /** When every byte of the message has a code, the translation inserts
      nothing and the bits are the message's codes one after the other. */
  lemma {:induction false} TranslateComplete(message: seq<byte>, t: Table)
    requires forall j :: 0 <= j < |message| ==> message[j] in t
    ensures WithDefaults(t, message) == t
    ensures TranslateBits(message, t) == Concat(message, t)
    decreases |message|
  {
    if message != [] {
      TranslateComplete(message[..|message| - 1], t);
    }
  }

  /** Codes made of `'0'` and `'1'` give bits made of `'0'` and `'1'`. */
  lemma {:induction false} TranslateBinary(message: seq<byte>, t: Table)
    requires forall k :: k in t ==> IsBinary(t[k])
    ensures IsBinary(TranslateBits(message, t))
    decreases |message|
  {
    if message != [] {
      TranslateBinary(message[..|message| - 1], t);
    }
  }

  /** A table whose codes are all empty translates every message to no bits. */
  lemma {:induction false} TranslateEmptyCodes(message: seq<byte>, t: Table)
    requires forall k :: k in t ==> t[k] == []
    ensures TranslateBits(message, t) == []
    decreases |message|
  {
    if message != [] {
      TranslateEmptyCodes(message[..|message| - 1], t);
    }
  }

  /** The container `encode` assembles from a code table and the message's
      bits: the table length truncated to a byte, the serialised table, the
      packed bits. */
  function Container(t: Table, bits: Code): (e: seq<byte>)
    ensures |e| == 1 + |TableBytes(t)| + (|bits| + 7) / 8
    ensures e[0] == |TableBytes(t)| % 256
  {
    var tb := TableBytes(t);
    [|tb| % 256] + tb + PackBits(bits)
  }

  /** The code table the tree walk of `encode` yields: the priority queue
      holds copies of the leaves, so the parents are set on the copies and
      every leaf in `base_nodes` stays without a parent. Each distinct byte
      of the message gets the empty code. */
  function EmptyCodes(message: seq<byte>): Table
  {
    map b: byte | b in message :: []
  }

  /** A table is `EmptyCodes(message)` exactly when its keys are the bytes
      of `message` and all its codes are empty. */
  lemma EmptyCodesUnique(message: seq<byte>, t: Table)
    requires forall b :: b in t <==> b in message
    requires forall b :: b in t ==> t[b] == []
    ensures t == EmptyCodes(message)
  {
  }

  /** The tree-building part of `Huffman::encode`: count the bytes, seed the
      queue with a copy of each leaf, merge until one node is left, then
      walk from each leaf in `base_nodes` to its root. `rootWeight` is the
      value of the node left in the queue. */
  method BuildCodes(message: seq<byte>) returns (translation: Table, ghost rootWeight: int)
    ensures translation == EmptyCodes(message)
    ensures message != [] ==> rootWeight == |message|
  {
    var counts := CountBytes(message);
    var pq, baseNodes := SeedQueue(counts);
    var rest := MergeLoop(pq);
    rootWeight := 0;
    if |rest| == 1 {
      LeavesSum(counts);
      RootValue(pq, rest);
      rootWeight := rest[0].value;
    }
    ghost var chains := map k | k in baseNodes :: [baseNodes[k]];
    ghost var codes: Table := map k | k in baseNodes :: [];
    forall k | k in baseNodes
      ensures ReadsOff(baseNodes[k], chains[k], codes[k])
    {
      UnlinkedLeafCode(baseNodes[k]);
    }
    translation := ExtractCodes(baseNodes, chains, codes);
    EmptyCodesUnique(message, translation);
  }

  /** `Huffman::encode`. The result is the container for a table that maps
      each distinct byte to the empty code, with no body; `rootWeight` is
      the weight of the tree's root, which is the message's length. */
  method Encode(message: seq<byte>) returns (result: seq<byte>, ghost rootWeight: int)
    ensures result == Container(EmptyCodes(message), [])
    ensures message != [] ==> rootWeight == |message|
  {
    var translation;
    translation, rootWeight := BuildCodes(message);
    var bits, table := Translate(message, translation);
    TranslateComplete(message, translation);
    TranslateEmptyCodes(message, translation);
    var encodedBytes := Pack(bits);
    var tableBytes := EncodeTranslationTable(table);
    result := [|tableBytes| % 256] + tableBytes + encodedBytes;
  }

  /** What `Huffman::decode` returns: parse the table inline from index 1
      while the index is at most the header byte, expand every remaining
      byte to 8 bits, and scan them. */
  function Decoded(encoded: seq<byte>): seq<byte>
    requires |encoded| >= 1 && EntriesFit(encoded, 1, encoded[0])
  {
    var (t, index) := ParseEntries(encoded, 1, encoded[0], map[]);
    Scanned(UnpackBytes(encoded[index..]), t)
  }

  /** `Huffman::decode`. Reading past the end of `encoded` is undefined, so
      the header and every entry it announces must lie inside it. */
  method Decode(encoded: seq<byte>) returns (result: seq<byte>)
    requires |encoded| >= 1 && EntriesFit(encoded, 1, encoded[0])
    ensures result == Decoded(encoded)
    ensures forall j :: 0 <= j < |result| ==> result[j] in ParseEntries(encoded, 1, encoded[0], map[]).0
  {
    var table, index := ParseHeader(encoded);
    var bits := Unpack(encoded, index);
    result := Scan(bits, table);
    ScanEmitsKeys(bits, table);
  }

  /** Parsing entries whose codes are all empty, from any limit inside the
      sequence, stays in bounds and yields only empty codes. */
  lemma {:induction false} EmptyEntriesParse(e: seq<byte>, i: nat, limit: int, acc: Table, t: Table, keys: seq<byte>)
    requires i <= |e| && limit < |e|
    requires forall j :: 0 <= j < |keys| ==> keys[j] in t && t[keys[j]] == []
    requires e[i..] == EntriesBytes(t, keys)
    requires forall k :: k in acc ==> acc[k] == []
    ensures EntriesFit(e, i, limit)
    ensures forall k :: k in ParseEntries(e, i, limit, acc).0 ==> ParseEntries(e, i, limit, acc).0[k] == []
    decreases |keys|
  {
    if i <= limit {
      var k := keys[0];
      assert e[i..] == [k, 0] + EntriesBytes(t, keys[1..]);
      assert e[i] == k && e[i + 1] == 0;
      assert e[i + 2..] == EntriesBytes(t, keys[1..]);
      assert BytesToChars(e[i + 2 .. i + 2]) == [];
      EmptyEntriesParse(e, i + 2, limit, acc[k := []], t, keys[1..]);
    }
  }

  /** What `encode` writes can always be read by `decode`, even when the
      table's length has wrapped in the header byte, and what `decode` reads
      from it is nothing: every code is empty, so no candidate ever matches.
      In particular `decode(encode(m)) != m` for every non-empty `m`. */
  lemma AsWrittenLosesMessage(message: seq<byte>)
    ensures var e := Container(EmptyCodes(message), []);
      |e| >= 1 && EntriesFit(e, 1, e[0]) && Decoded(e) == []
  {
    var t := EmptyCodes(message);
    var keys := SortedKeys(t);
    var tb := TableBytes(t);
    var e := Container(t, []);
    assert e == [|tb| % 256] + tb;
    assert e[1..] == EntriesBytes(t, keys);
    EmptyEntriesParse(e, 1, e[0], map[], t, keys);
    var (parsed, index) := ParseEntries(e, 1, e[0], map[]);
    EmptyCodesDecodeNothing(UnpackBytes(e[index..]), parsed);
  }

  /** An empty message encodes to the single byte 0, which decodes to an
      empty message. */
  lemma EmptyMessage()
    ensures Container(EmptyCodes([]), []) == [0]
    ensures EntriesFit([0], 1, 0) && Decoded([0]) == []
  {
    var t: Table := EmptyCodes([]);
    assert t == map[];
    assert SortedKeys(t) == [];
  }

  /** Every code is a string of `'0'` and `'1'`. */
  ghost predicate BinaryCodes(t: Table)
  {
    forall k :: k in t ==> IsBinary(t[k])
  }

  /** With a table shorter than 256 bytes the header byte is its length, so
      `decode` reads back the table and finds the packed bits right after
      it. */
  lemma ContainerParse(t: Table, bits: Code)
    requires forall k :: k in t ==> |t[k]| < 256
    requires |TableBytes(t)| < 256
    ensures var e := Container(t, bits);
      EntriesFit(e, 1, e[0]) &&
      ParseEntries(e, 1, e[0], map[]) == (t, 1 + |TableBytes(t)|) &&
      e[1 + |TableBytes(t)|..] == PackBits(bits)
  {
    var tb := TableBytes(t);
    var body := PackBits(bits);
    var e := Container(t, bits);
    assert |tb| % 256 == |tb|;
    assert e == [|tb|] + tb + body;
    TableRoundTrip(t);
    HeaderParseAgrees(tb, body);
    assert e[1 + |tb|..] == body;
  }

  /** The container round trip for a code table that the tree walk was meant
      to produce: with prefix-free binary codes shorter than 256 characters,
      a serialised table shorter than 256 bytes and a whole number of bytes
      of bits, decoding the container of a message gives the message back. */
  lemma PrefixFreeRoundTrip(message: seq<byte>, t: Table)
    requires forall j :: 0 <= j < |message| ==> message[j] in t
    requires PrefixFree(t) && BinaryCodes(t)
    requires forall k :: k in t ==> |t[k]| < 256
    requires |TableBytes(t)| < 256
    requires |TranslateBits(message, t)| % 8 == 0
    ensures IsBinary(TranslateBits(message, t))
    ensures var e := Container(t, TranslateBits(message, t));
      |e| >= 1 && EntriesFit(e, 1, e[0]) && Decoded(e) == message
  {
    TranslateBinary(message, t);
    var bits := TranslateBits(message, t);
    ContainerParse(t, bits);
    UnpackPackWhole(bits);
    TranslateComplete(message, t);
    ScanConcat(message, t);
  }
}
