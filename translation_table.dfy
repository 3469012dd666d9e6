/** The serialised translation table: `Huffman::encode_translation_table`,
    `Huffman::decode_translation_table`, and the copy of the latter's parsing
    loop that `Huffman::decode` carries inline. */
module TranslationTable {
  import opened Bytes

  /** One serialised entry: the symbol, the code length truncated to a byte,
      then one byte per code character. */
  function EntryBytes(symbol: byte, code: Code): seq<byte>
  {
    [symbol, |code| % 256] + CharsToBytes(code)
  }

  function EntriesBytes(t: Table, keys: seq<byte>): seq<byte>
    requires forall j :: 0 <= j < |keys| ==> keys[j] in t
  {
    if keys == [] then [] else EntryBytes(keys[0], t[keys[0]]) + EntriesBytes(t, keys[1..])
  }

  /** The serialised table: every entry, in ascending symbol order. */
  function TableBytes(t: Table): seq<byte>
  {
    EntriesBytes(t, SortedKeys(t))
  }

  /** Sum over `keys` of 2 + the length of the key's code. */
  function EntriesSize(t: Table, keys: seq<byte>): nat
    requires forall j :: 0 <= j < |keys| ==> keys[j] in t
  {
    if keys == [] then 0 else 2 + |t[keys[0]]| + EntriesSize(t, keys[1..])
  }

  method EncodeTranslationTable(t: Table) returns (encode: seq<byte>)
    ensures encode == TableBytes(t)
  {
    var keys: seq<byte> := SortedKeys(t);
    encode := [];
    for i := 0 to |keys|
      invariant encode + EntriesBytes(t, keys[i..]) == EntriesBytes(t, keys)
    {
      var key: byte := keys[i];
      EncodeStep(t, keys, i, encode);
      encode := PushEntry(encode, key, t[key]);
    }
    EncodeEnd(t, keys, encode);
  }

  /** One round of the loop keeps the bytes written so far followed by the
      entries still to write equal to the whole serialisation. */
  lemma EncodeStep(t: Table, keys: seq<byte>, i: nat, encode: seq<byte>)
    requires i < |keys| && forall j :: 0 <= j < |keys| ==> keys[j] in t
    requires encode + EntriesBytes(t, keys[i..]) == EntriesBytes(t, keys)
    ensures (encode + EntryBytes(keys[i], t[keys[i]])) + EntriesBytes(t, keys[i + 1..]) == EntriesBytes(t, keys)
  {
    EntriesStep(t, keys, i);
    AppendAssoc(encode, EntryBytes(keys[i], t[keys[i]]), EntriesBytes(t, keys[i + 1..]));
  }

  lemma EncodeEnd(t: Table, keys: seq<byte>, encode: seq<byte>)
    requires forall j :: 0 <= j < |keys| ==> keys[j] in t
    requires encode + EntriesBytes(t, keys[|keys|..]) == EntriesBytes(t, keys)
    ensures encode == EntriesBytes(t, keys)
  {
    assert keys[|keys|..] == [];
  }

  /** The body of the loop over the table: the symbol, the length byte, then
      the code's characters one at a time. */
  method PushEntry(encode: seq<byte>, key: byte, code: Code) returns (out: seq<byte>)
    ensures out == encode + EntryBytes(key, code)
  {
    out := encode + [key];
    out := out + [|code| % 256];
    for j := 0 to |code|
      invariant out == encode + [key, |code| % 256] + CharsToBytes(code[..j])
    {
      assert CharsToBytes(code[..j + 1]) == CharsToBytes(code[..j]) + [code[j] as int];
      out := out + [code[j] as int];
    }
    assert code[..|code|] == code;
  }

  lemma EntriesStep(t: Table, keys: seq<byte>, i: nat)
    requires i < |keys| && forall j :: 0 <= j < |keys| ==> keys[j] in t
    ensures EntriesBytes(t, keys[i..]) == EntryBytes(keys[i], t[keys[i]]) + EntriesBytes(t, keys[i + 1..])
  {
    assert keys[i..][1..] == keys[i + 1..];
  }

  lemma {:induction false} EntriesLength(t: Table, keys: seq<byte>)
    requires forall j :: 0 <= j < |keys| ==> keys[j] in t
    ensures |EntriesBytes(t, keys)| == EntriesSize(t, keys)
  {
    if keys != [] {
      EntriesLength(t, keys[1..]);
    }
  }

  /** The serialised table is 2 + |code| bytes per entry. */
  lemma TableBytesLength(t: Table)
    ensures |TableBytes(t)| == EntriesSize(t, SortedKeys(t))
  {
    EntriesLength(t, SortedKeys(t));
  }

  /** Every entry that starts at an index from `i` up to `limit` lies inside
      `s`, so that reading its symbol, its length and its code stays in
      bounds. */
  ghost predicate EntriesFit(s: seq<byte>, i: nat, limit: int)
    requires i <= |s|
    decreases |s| - i
  {
    i > limit ||
    (i + 1 < |s| && i + 2 + s[i + 1] <= |s| && EntriesFit(s, i + 2 + s[i + 1], limit))
  }

  /** The parsing loop `while (i <= limit) { key, size, code; t[key] = code; }`
      started at index `i` with table `acc`: the table it leaves and the
      index where it stops. A later entry with the same symbol replaces an
      earlier one. */
  function ParseEntries(s: seq<byte>, i: nat, limit: int, acc: Table): (r: (Table, nat))
    requires i <= |s| && EntriesFit(s, i, limit)
    ensures i <= r.1 <= |s| && limit < r.1
    ensures acc.Keys <= r.0.Keys
    decreases |s| - i
  {
    if i > limit then (acc, i)
    else
      var next := i + 2 + s[i + 1];
      ParseEntries(s, next, limit, acc[s[i] := BytesToChars(s[i + 2 .. next])])
  }

  /** `decode_translation_table`: entries are read while `i < size()`. */
  function ParseTable(s: seq<byte>): Table
    requires EntriesFit(s, 0, |s| - 1)
  {
    ParseEntries(s, 0, |s| - 1, map[]).0
  }

  method DecodeTranslationTable(tt: seq<byte>) returns (table: Table)
    requires EntriesFit(tt, 0, |tt| - 1)
    ensures table == ParseTable(tt)
  {
    table := map[];
    var i := 0;
    while i < |tt|
      invariant i <= |tt| && EntriesFit(tt, i, |tt| - 1)
      invariant ParseEntries(tt, i, |tt| - 1, table).0 == ParseTable(tt)
      decreases |tt| - i
    {
      var key := tt[i];
      i := i + 1;
      var size := tt[i];
      i := i + 1;
      ghost var start := i;
      var code: Code := [];
      for j := 0 to size
        invariant i == start + j
        invariant code == BytesToChars(tt[start .. i])
      {
        code := code + [tt[i] as char];
        i := i + 1;
      }
      table := table[key := code];
    }
  }

  /** The table parse inside `decode`: the header byte `encoded[0]` is read
      as the table size and entries are read while `index <= size`, starting
      at index 1. Returns the table and the index where the body starts. */
  method ParseHeader(encoded: seq<byte>) returns (table: Table, index: nat)
    requires |encoded| >= 1 && EntriesFit(encoded, 1, encoded[0])
    ensures (table, index) == ParseEntries(encoded, 1, encoded[0], map[])
    ensures 1 <= index <= |encoded|
  {
    var size := encoded[0];
    table := map[];
    index := 1;
    while index <= size
      invariant 1 <= index <= |encoded| && EntriesFit(encoded, index, size)
      invariant ParseEntries(encoded, index, size, table) == ParseEntries(encoded, 1, size, map[])
      decreases |encoded| - index
    {
      var key := encoded[index];
      index := index + 1;
      var codeSize := encoded[index];
      index := index + 1;
      ghost var start := index;
      var code: Code := [];
      for j := 0 to codeSize
        invariant index == start + j
        invariant code == BytesToChars(encoded[start .. index])
      {
        code := code + [encoded[index] as char];
        index := index + 1;
      }
      table := table[key := code];
    }
  }

  /** Parsing does not depend on what lies before or after the entries:
      moving them `|p|` bytes to the right moves the stopping index with them
      and yields the same table. */
  lemma {:induction false} ParseShift(p: seq<byte>, s: seq<byte>, body: seq<byte>, i: nat, limit: int, acc: Table)
    requires i <= |s| && EntriesFit(s, i, limit)
    ensures EntriesFit(p + s + body, |p| + i, |p| + limit)
    ensures ParseEntries(p + s + body, |p| + i, |p| + limit, acc)
         == (ParseEntries(s, i, limit, acc).0, |p| + ParseEntries(s, i, limit, acc).1)
    decreases |s| - i
  {
    var e := p + s + body;
    if i <= limit {
      var next := i + 2 + s[i + 1];
      assert e[|p| + i] == s[i] && e[|p| + i + 1] == s[i + 1];
      assert e[|p| + i + 2 .. |p| + next] == s[i + 2 .. next];
      ParseShift(p, s, body, next, limit, acc[s[i] := BytesToChars(s[i + 2 .. next])]);
    }
  }

  /** `acc` after `acc[k] = t[k]` for each `k` of `keys` in turn. */
  function Inserted(acc: Table, t: Table, keys: seq<byte>): Table
    requires forall j :: 0 <= j < |keys| ==> keys[j] in t
    decreases |keys|
  {
    if keys == [] then acc else Inserted(acc[keys[0] := t[keys[0]]], t, keys[1..])
  }

  lemma {:induction false} InsertedLookup(acc: Table, t: Table, keys: seq<byte>)
    requires forall j :: 0 <= j < |keys| ==> keys[j] in t
    ensures forall j :: j in Inserted(acc, t, keys) <==> j in acc || j in keys
    ensures forall j :: j in Inserted(acc, t, keys) ==>
      Inserted(acc, t, keys)[j] == if j in keys then t[j] else acc[j]
    decreases |keys|
  {
    if keys != [] {
      var k := keys[0];
      InsertedLookup(acc[k := t[k]], t, keys[1..]);
      assert forall j :: j in keys <==> j == k || j in keys[1..];
    }
  }

  /** Inserting every key of `t` into an empty table rebuilds `t`. */
  lemma InsertedAll(t: Table, keys: seq<byte>)
    requires forall k: byte :: k in keys <==> k in t
    ensures Inserted(map[], t, keys) == t
  {
    InsertedLookup(map[], t, keys);
  }

  /** Parsing a serialised entry followed by well-formed entries reads the
      entry back and then parses the rest. */
  lemma ParseEntryThenRest(k: byte, code: Code, rest: seq<byte>, s: seq<byte>, acc: Table)
    requires |code| < 256 && EntriesFit(rest, 0, |rest| - 1)
    requires s == EntryBytes(k, code) + rest
    ensures EntriesFit(s, 0, |s| - 1)
    ensures ParseEntries(s, 0, |s| - 1, acc).0 == ParseEntries(rest, 0, |rest| - 1, acc[k := code]).0
  {
    var p := EntryBytes(k, code);
    EntryFields(k, code, rest, s);
    ParseShift(p, rest, [], 0, |rest| - 1, acc[k := code]);
    ParseFirstEntry(s, acc);
  }

  /** The fields of a serialised entry at the front of `s`. */
  lemma EntryFields(k: byte, code: Code, rest: seq<byte>, s: seq<byte>)
    requires |code| < 256 && s == EntryBytes(k, code) + rest
    ensures s == EntryBytes(k, code) + rest + []
    ensures |EntryBytes(k, code)| == 2 + |code| && |s| == 2 + |code| + |rest|
    ensures s[0] == k && s[1] == |code| && BytesToChars(s[2 .. 2 + |code|]) == code
  {
    assert s[2 .. 2 + |code|] == CharsToBytes(code);
    CharsRoundTrip(code);
  }

  /** One step of the parsing loop from index 0. */
  lemma ParseFirstEntry(s: seq<byte>, acc: Table)
    requires 2 <= |s| && s[1] as int + 2 <= |s| && EntriesFit(s, s[1] as int + 2, |s| - 1)
    ensures EntriesFit(s, 0, |s| - 1)
    ensures ParseEntries(s, 0, |s| - 1, acc)
         == ParseEntries(s, s[1] as int + 2, |s| - 1, acc[s[0] := BytesToChars(s[2 .. s[1] as int + 2])])
  {
  }

  /** Parsing the entries of `keys` performs the insertions of `keys`. */
  lemma {:induction false} EntriesRoundTrip(t: Table, keys: seq<byte>, acc: Table)
    requires forall j :: 0 <= j < |keys| ==> keys[j] in t && |t[keys[j]]| < 256
    ensures var s := EntriesBytes(t, keys);
      EntriesFit(s, 0, |s| - 1) && ParseEntries(s, 0, |s| - 1, acc).0 == Inserted(acc, t, keys)
    decreases |keys|
  {
    if keys != [] {
      var k := keys[0];
      EntriesUnfold(t, keys, acc);
      EntriesRoundTrip(t, keys[1..], acc[k := t[k]]);
      ParseEntryThenRest(k, t[k], EntriesBytes(t, keys[1..]), EntriesBytes(t, keys), acc);
    }
  }

  /** The first key of `keys` is serialised first and inserted first. */
  lemma EntriesUnfold(t: Table, keys: seq<byte>, acc: Table)
    requires keys != [] && forall j :: 0 <= j < |keys| ==> keys[j] in t
    ensures EntriesBytes(t, keys) == EntryBytes(keys[0], t[keys[0]]) + EntriesBytes(t, keys[1..])
    ensures Inserted(acc, t, keys) == Inserted(acc[keys[0] := t[keys[0]]], t, keys[1..])
  {
  }

  /** `decode_translation_table(encode_translation_table(t)) == t` when every
      code is shorter than 256 characters, so that no length byte wraps. */
  lemma TableRoundTrip(t: Table)
    requires forall k :: k in t ==> |t[k]| < 256
    ensures EntriesFit(TableBytes(t), 0, |TableBytes(t)| - 1)
    ensures ParseTable(TableBytes(t)) == t
  {
    var keys := SortedKeys(t);
    var s := TableBytes(t);
    assert s == EntriesBytes(t, keys);
    EntriesRoundTrip(t, keys, map[]);
    InsertedAll(t, keys);
  }

  /** `decode`'s inline parse agrees with `decode_translation_table`: when the
      header byte is the serialised table's length, it yields the same table
      and stops exactly where the table ends. */
  lemma HeaderParseAgrees(s: seq<byte>, body: seq<byte>)
    requires |s| < 256 && EntriesFit(s, 0, |s| - 1)
    ensures var e := [|s|] + s + body;
      EntriesFit(e, 1, e[0]) && ParseEntries(e, 1, e[0], map[]) == (ParseTable(s), 1 + |s|)
  {
    HeaderShift(s, body);
    StopsAtEnd(s);
    HeaderByte(s, body);
  }

  /** `ParseShift` for the one header byte in front of the table. */
  lemma HeaderShift(s: seq<byte>, body: seq<byte>)
    requires |s| < 256 && EntriesFit(s, 0, |s| - 1)
    ensures EntriesFit([|s|] + s + body, 1, |s|)
    ensures ParseEntries([|s|] + s + body, 1, |s|, map[])
         == (ParseEntries(s, 0, |s| - 1, map[]).0, 1 + ParseEntries(s, 0, |s| - 1, map[]).1)
  {
    ParseShift([|s|], s, body, 0, |s| - 1, map[]);
  }

  lemma HeaderByte(s: seq<byte>, body: seq<byte>)
    requires |s| < 256
    ensures ([|s|] + s + body)[0] == |s|
  {
  }

  /** Parsing a whole serialised table stops exactly at its end. */
  lemma StopsAtEnd(s: seq<byte>)
    requires EntriesFit(s, 0, |s| - 1)
    ensures ParseEntries(s, 0, |s| - 1, map[]).1 == |s|
  {
  }
}
