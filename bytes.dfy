/** Vocabulary shared by every stage of the codec: unsigned bytes, the 8-bit
    `char` that a C++ `std::string` holds, code tables, and the ascending key
    order in which a `std::map<unsigned char, _>` is walked. */
module Bytes {

  /** An `unsigned char`. */
  type byte = b: int | 0 <= b < 256

  /** A C++ `char` as stored in a `std::string`: one of 256 values. */
  type char8 = c: char | c as int < 256 witness '0'

  /** A code string such as `"0110"`: a `std::string`. */
  type Code = seq<char8>

  /** A `std::map<unsigned char, std::string>`: symbol to code. */
  type Table = map<byte, Code>

  datatype Option<T> = None | Some(value: T)

  /** Writing a `char` into a `std::vector<unsigned char>`. */
  function CharsToBytes(s: Code): seq<byte>
  {
    seq(|s|, i requires 0 <= i < |s| => s[i] as int)
  }

  /** Appending `unsigned char`s to a `std::string`. */
  function BytesToChars(bs: seq<byte>): Code
  {
    seq(|bs|, i requires 0 <= i < |bs| => bs[i] as char)
  }

  lemma CharsRoundTrip(s: Code)
    ensures BytesToChars(CharsToBytes(s)) == s
  {
  }

  lemma AppendAssoc<T>(a: seq<T>, b: seq<T>, c: seq<T>)
    ensures (a + b) + c == a + (b + c)
  {
  }

  ghost predicate Ascending(keys: seq<byte>)
  {
    forall i, j :: 0 <= i < j < |keys| ==> keys[i] < keys[j]
  }

  /** A smallest byte of a non-empty set of bytes. */
  lemma {:induction false} SmallestOf(s: set<byte>) returns (k: byte)
    requires s != {}
    ensures k in s && forall j :: j in s ==> k <= j
    decreases |s|
  {
    var x :| x in s;
    if s == {x} {
      k := x;
    } else {
      var rest := s - {x};
      var m := SmallestOf(rest);
      k := if x < m then x else m;
      forall j | j in s
        ensures k <= j
      {
        if j != x {
          assert j in rest;
        }
      }
    }
  }

  lemma HasLeast(s: set<byte>)
    requires s != {}
    ensures exists k :: k in s && forall j :: j in s ==> k <= j
  {
    var k := SmallestOf(s);
  }

  function Least(s: set<byte>): (k: byte)
    requires s != {}
    ensures k in s && forall j :: j in s ==> k <= j
  {
    HasLeast(s);
    var k :| k in s && forall j :: j in s ==> k <= j; k
  }

  /** The elements of `s`, each once, smallest first. */
  function Ordered(s: set<byte>): (keys: seq<byte>)
    ensures forall k: byte :: k in keys <==> k in s
    decreases s
  {
    if s == {} then [] else [Least(s)] + Ordered(s - {Least(s)})
  }

  lemma {:induction false} OrderedAscending(s: set<byte>)
    ensures Ascending(Ordered(s))
    decreases s
  {
    if s != {} {
      var k := Least(s);
      var rest := Ordered(s - {k});
      OrderedAscending(s - {k});
      assert forall j :: 0 <= j < |rest| ==> rest[j] in rest && k < rest[j];
    }
  }

  /** The order in which `for (auto &pair : m)` visits a map keyed by
      `unsigned char`: every key once, smallest first. */
  function SortedKeys<V>(m: map<byte, V>): (keys: seq<byte>)
    ensures forall k: byte :: k in keys <==> k in m
  {
    Ordered(m.Keys)
  }

  lemma SortedKeysAscending<V>(m: map<byte, V>)
    ensures Ascending(SortedKeys(m))
  {
    OrderedAscending(m.Keys);
  }
}
