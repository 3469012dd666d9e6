/** The last stage of `Huffman::decode`: each unpacked bit is appended to a
    candidate code, the table is searched in ascending symbol order for an
    entry whose code equals the candidate, and on the first hit its symbol is
    emitted and the candidate starts again from empty. */
module GreedyScan {
  import opened Bytes

  /** The first key of `keys` whose code in `t` is exactly `code`. */
  function FirstMatch(t: Table, keys: seq<byte>, code: Code): (r: Option<byte>)
    requires forall j :: 0 <= j < |keys| ==> keys[j] in t
    ensures r.Some? ==> r.value in keys && r.value in t && t[r.value] == code
    ensures r.None? <==> forall j :: 0 <= j < |keys| ==> t[keys[j]] != code
    decreases |keys|
  {
    if keys == [] then None
    else if t[keys[0]] == code then Some(keys[0])
    else
      var r := FirstMatch(t, keys[1..], code);
      assert forall j :: 1 <= j < |keys| ==> keys[j] == keys[1..][j - 1];
      r
  }

  /** The inner `for (auto &pair : translation_table)` search. */
  function Match(t: Table, code: Code): Option<byte>
  {
    FirstMatch(t, SortedKeys(t), code)
  }

  /** A hit is a symbol whose code is the candidate, and a miss means that no
      symbol has that code. */
  lemma MatchMeaning(t: Table, code: Code)
    ensures Match(t, code).Some? ==> Match(t, code).value in t && t[Match(t, code).value] == code
    ensures Match(t, code).None? <==> forall k :: k in t ==> t[k] != code
  {
    var keys := SortedKeys(t);
    if Match(t, code).None? {
      forall k | k in t
        ensures t[k] != code
      {
        var j :| 0 <= j < |keys| && keys[j] == k;
      }
    }
  }

  lemma {:induction false} FirstMatchIsSmallest(t: Table, keys: seq<byte>, code: Code)
    requires forall j :: 0 <= j < |keys| ==> keys[j] in t
    requires Ascending(keys)
    ensures FirstMatch(t, keys, code).Some? ==>
      forall j :: 0 <= j < |keys| && t[keys[j]] == code ==> FirstMatch(t, keys, code).value <= keys[j]
    decreases |keys|
  {
    if keys != [] && t[keys[0]] != code {
      assert Ascending(keys[1..]);
      FirstMatchIsSmallest(t, keys[1..], code);
      assert forall j :: 1 <= j < |keys| ==> keys[j] == keys[1..][j - 1];
    }
  }

  /** When several symbols share a code, the smallest of them wins. */
  lemma MatchIsSmallest(t: Table, code: Code, k: byte)
    requires k in t && t[k] == code
    ensures Match(t, code).Some? && Match(t, code).value <= k
  {
    var keys := SortedKeys(t);
    SortedKeysAscending(t);
    FirstMatchIsSmallest(t, keys, code);
    var j :| 0 <= j < |keys| && keys[j] == k;
  }

  /** The emitted symbols and the pending candidate after the scan has read
      `bits`. */
  function ScanState(bits: Code, t: Table): (st: (seq<byte>, Code))
    decreases |bits|
  {
    if bits == [] then ([], [])
    else
      var prev := ScanState(bits[..|bits| - 1], t);
      var candidate := prev.1 + [bits[|bits| - 1]];
      match Match(t, candidate)
      case Some(k) => (prev.0 + [k], [])
      case None => (prev.0, candidate)
  }

  /** Reading one more bit. */
  lemma ScanAppend(bits: Code, b: char8, t: Table)
    ensures var prev := ScanState(bits, t);
      var candidate := prev.1 + [b];
      ScanState(bits + [b], t) ==
        if Match(t, candidate).Some? then (prev.0 + [Match(t, candidate).value], [])
        else (prev.0, candidate)
  {
    assert (bits + [b])[..|bits|] == bits;
  }

  /** What the scan returns: the emitted symbols. The pending candidate is
      discarded. */
  function Scanned(bits: Code, t: Table): seq<byte>
  {
    ScanState(bits, t).0
  }

  /** The scan loop of `decode`. */
  method Scan(bits: Code, t: Table) returns (decoded: seq<byte>)
    ensures decoded == Scanned(bits, t)
  {
    var keys: seq<byte> := SortedKeys(t);
    decoded := [];
    var current: Code := [];
    for i := 0 to |bits|
      invariant (decoded, current) == ScanState(bits[..i], t)
    {
      assert bits[..i + 1][..i] == bits[..i];
      current := current + [bits[i]];
      ghost var candidate := current;
      var j := 0;
      while j < |keys|
        invariant 0 <= j <= |keys|
        invariant current == candidate
        invariant FirstMatch(t, keys[j..], candidate) == Match(t, candidate)
      {
        if t[keys[j]] == current {
          decoded := decoded + [keys[j]];
          current := [];
          break;
        }
        assert keys[j..][1..] == keys[j + 1..];
        j := j + 1;
      }
    }
    assert bits[..|bits|] == bits;
  }

  /** Every emitted symbol is a key of the table, and its code is not empty:
      the candidate holds at least one bit whenever it is compared. */
  lemma {:induction false} ScanEmitsKeys(bits: Code, t: Table)
    ensures forall j :: 0 <= j < |Scanned(bits, t)| ==>
      Scanned(bits, t)[j] in t && t[Scanned(bits, t)[j]] != []
    decreases |bits|
  {
    if bits != [] {
      var prev := ScanState(bits[..|bits| - 1], t);
      var candidate := prev.1 + [bits[|bits| - 1]];
      ScanEmitsKeys(bits[..|bits| - 1], t);
      assert prev.0 == Scanned(bits[..|bits| - 1], t);
      MatchMeaning(t, candidate);
      if Match(t, candidate).Some? {
        assert Scanned(bits, t) == prev.0 + [Match(t, candidate).value];
      } else {
        assert Scanned(bits, t) == prev.0;
      }
    }
  }

  /** The pending candidate is a suffix of the bits read. */
  lemma {:induction false} PendingIsSuffix(bits: Code, t: Table)
    ensures |ScanState(bits, t).1| <= |bits|
    ensures ScanState(bits, t).1 == bits[|bits| - |ScanState(bits, t).1| ..]
    decreases |bits|
  {
    if bits != [] {
      var init := bits[..|bits| - 1];
      PendingIsSuffix(init, t);
      var c := ScanState(init, t).1;
      assert init[|init| - |c| ..] + [bits[|bits| - 1]] == bits[|bits| - |c| - 1 ..];
    }
  }

  /** The pending candidate is the bits read since the last hit: the bits
      before it leave nothing pending and have already emitted everything
      that has been emitted. */
  lemma {:induction false} PendingSinceLastHit(bits: Code, t: Table)
    ensures |ScanState(bits, t).1| <= |bits|
    ensures ScanState(bits[..|bits| - |ScanState(bits, t).1|], t) == (ScanState(bits, t).0, [])
    decreases |bits|
  {
    if bits != [] {
      var init := bits[..|bits| - 1];
      var last := bits[|bits| - 1];
      PendingSinceLastHit(init, t);
      var prev := ScanState(init, t);
      var candidate := prev.1 + [last];
      if Match(t, candidate).Some? {
        assert ScanState(bits, t) == (prev.0 + [Match(t, candidate).value], []);
        assert bits[..|bits|] == bits;
      } else {
        assert ScanState(bits, t) == (prev.0, candidate);
        assert bits[..|bits| - |candidate|] == init[..|init| - |prev.1|];
      }
    }
  }

  /** A table whose codes are all empty never matches, so nothing is
      decoded. */
  lemma {:induction false} EmptyCodesDecodeNothing(bits: Code, t: Table)
    requires forall k :: k in t ==> t[k] == []
    ensures Scanned(bits, t) == []
    decreases |bits|
  {
    if bits != [] {
      var init := bits[..|bits| - 1];
      EmptyCodesDecodeNothing(init, t);
      MatchMeaning(t, ScanState(init, t).1 + [bits[|bits| - 1]]);
    }
  }

  /** Bits after the last hit that never complete a code are dropped: the
      result is what it was before they were read. */
  lemma {:induction false} UnmatchedTailDropped(bits: Code, tail: Code, t: Table)
    requires forall j :: 1 <= j <= |tail| ==> Match(t, ScanState(bits, t).1 + tail[..j]).None?
    ensures ScanState(bits + tail, t) == (ScanState(bits, t).0, ScanState(bits, t).1 + tail)
    decreases |tail|
  {
    if tail == [] {
      assert bits + tail == bits;
      assert ScanState(bits, t).1 + tail == ScanState(bits, t).1;
    } else {
      var init := tail[..|tail| - 1];
      var last := tail[|tail| - 1];
      assert forall j :: 1 <= j <= |init| ==> init[..j] == tail[..j];
      UnmatchedTailDropped(bits, init, t);
      var c := ScanState(bits, t).1;
      SplitLast(bits, tail);
      SplitLast(c, tail);
      ScanAppend(bits + init, last, t);
      assert tail[..|tail|] == tail;
    }
  }

  /** No code is empty and no code is a prefix of another symbol's code;
      in particular no two symbols share a code. */
  ghost predicate PrefixFree(t: Table)
  {
    (forall k :: k in t ==> t[k] != []) &&
    (forall k1, k2 :: k1 in t && k2 in t && k1 != k2 ==> !(t[k1] <= t[k2]))
  }

  /** The codes of `message`, one after the other. */
  function Concat(message: seq<byte>, t: Table): Code
    requires forall j :: 0 <= j < |message| ==> message[j] in t
    decreases |message|
  {
    if message == [] then []
    else Concat(message[..|message| - 1], t) + t[message[|message| - 1]]
  }

  /** No proper prefix of a symbol's code is any symbol's code. */
  lemma ProperPrefixesMiss(t: Table, k: byte, j: nat)
    requires PrefixFree(t) && k in t && 1 <= j < |t[k]|
    ensures Match(t, t[k][..j]).None?
  {
    var p := t[k][..j];
    MatchMeaning(t, p);
    forall k2 | k2 in t
      ensures t[k2] != p
    {
    }
  }

  /** A symbol's whole code finds that symbol. */
  lemma OwnCodeMatches(t: Table, k: byte)
    requires PrefixFree(t) && k in t
    ensures Match(t, t[k]) == Some(k)
  {
    MatchMeaning(t, t[k]);

  }

  /** From a clean state, bits that complete no code stay pending. */
  lemma CleanTailPending(bits: Code, tail: Code, t: Table)
    requires ScanState(bits, t).1 == []
    requires forall j :: 1 <= j <= |tail| ==> Match(t, tail[..j]).None?
    ensures ScanState(bits + tail, t) == (ScanState(bits, t).0, tail)
  {
    forall j | 1 <= j <= |tail|
      ensures Match(t, ScanState(bits, t).1 + tail[..j]).None?
    {
      assert ScanState(bits, t).1 + tail[..j] == tail[..j];
    }
    UnmatchedTailDropped(bits, tail, t);
    assert ScanState(bits, t).1 + tail == tail;
  }

  /** Reading all of a symbol's code but its last bit from a clean state
      emits nothing. */
  lemma CodeBodyPending(bits: Code, t: Table, k: byte)
    requires PrefixFree(t) && k in t && ScanState(bits, t).1 == []
    ensures ScanState(bits + t[k][..|t[k]| - 1], t) == (ScanState(bits, t).0, t[k][..|t[k]| - 1])
  {
    var init := t[k][..|t[k]| - 1];
    forall j | 1 <= j <= |init|
      ensures Match(t, init[..j]).None?
    {
      assert init[..j] == t[k][..j];
      ProperPrefixesMiss(t, k, j);
    }
    CleanTailPending(bits, init, t);
  }

  /** A non-empty sequence is its front followed by its last element. */
  lemma SplitLast<T>(bits: seq<T>, code: seq<T>)
    requires code != []
    ensures code == code[..|code| - 1] + [code[|code| - 1]]
    ensures bits + code == (bits + code[..|code| - 1]) + [code[|code| - 1]]
  {
    assert code == code[..|code| - 1] + [code[|code| - 1]];
  }

  /** With a prefix-free table, reading one symbol's code from a clean
      state emits exactly that symbol and leaves a clean state. */
  lemma ScanOneCode(bits: Code, t: Table, k: byte)
    requires PrefixFree(t) && k in t && ScanState(bits, t).1 == []
    ensures ScanState(bits + t[k], t) == (ScanState(bits, t).0 + [k], [])
  {
    var code := t[k];
    var init := code[..|code| - 1];
    var last := code[|code| - 1];
    CodeBodyPending(bits, t, k);
    SplitLast(bits, code);
    ScanAppend(bits + init, last, t);
    OwnCodeMatches(t, k);
  }

  /** With a prefix-free table the scan decodes the concatenated codes of a
      message back to the message. */
  lemma {:induction false} ScanConcat(message: seq<byte>, t: Table)
    requires PrefixFree(t)
    requires forall j :: 0 <= j < |message| ==> message[j] in t
    ensures ScanState(Concat(message, t), t) == (message, [])
    decreases |message|
  {
    if message != [] {
      var init := message[..|message| - 1];
      var k := message[|message| - 1];
      ScanConcat(init, t);
      ScanOneCode(Concat(init, t), t, k);
      SplitLast([], message);
    }
  }
}
