/** Bytes, C strings held in buffers, return codes, and the whitespace trim shared by the parser and the CLI. */
module Bytes {

  type byte = b: int | 0 <= b < 256

  /** The characters of a C string: the terminating NUL is not part of the value. */
  type CString = s: seq<byte> | 0 !in s

  datatype Option<+T> = None | Some(value: T)
  {
    function GetOr(default: T): T
    {
      match this case None => default case Some(v) => v
    }
  }

  /** The return codes of the library and of the CLI. */
  datatype Status = SALT_OK | SALT_ERR_INPUT | SALT_ERR_CRYPTO | SALT_ERR_INTERNAL | SALT_ERR_IO | SALT_ERR_SIGNAL

  const TAB: byte := 9
  const LF: byte := 10
  const VT: byte := 11
  const FF: byte := 12
  const CR: byte := 13
  const SPACE: byte := 32
  const QUOTE: byte := 34
  const COMMA: byte := 44
  const DASH: byte := 45
  const SLASH: byte := 47
  const COLON: byte := 58
  const BACKSLASH: byte := 92
  const OPEN_BRACE: byte := 123
  const CLOSE_BRACE: byte := 125

  /** The bytes of a text in ASCII. */
  function Ascii(text: string): (bytes: seq<byte>)
    requires forall c | c in text :: c < 128 as char
    ensures |bytes| == |text|
  {
    seq<byte>(|text|, i requires 0 <= i < |text| => assert text[i] in text; text[i] as byte)
  }

  lemma CharactersAre()
    ensures [TAB, LF, VT, FF, CR, SPACE, QUOTE, COMMA, DASH, SLASH, COLON, BACKSLASH, OPEN_BRACE, CLOSE_BRACE]
         == Ascii("\t\n\U{0B}\U{0C}\r \",-/:\\{}")
  {
  }

  // ----- C strings in buffers

  /** The number of bytes before the first NUL, or the whole length when there is none. */
  function NulPos(s: seq<byte>): (n: nat)
    ensures n <= |s| && 0 !in s[..n]
    ensures n < |s| ==> s[n] == 0
  {
    if s == [] || s[0] == 0 then 0 else
      var n := 1 + NulPos(s[1..]);
      assert s[..n] == [s[0]] + s[1..][..n - 1];
      n
  }

  function CStr(s: seq<byte>): (r: CString)
  {
    s[..NulPos(s)]
  }

  /** A NUL at `n` with none before it fixes the C string. */
  lemma CStrIs(s: seq<byte>, n: nat)
    requires n < |s| && s[n] == 0 && 0 !in s[..n]
    ensures NulPos(s) == n && CStr(s) == s[..n]
  {
    var m := NulPos(s);
    assert forall k | 0 <= k < n :: s[k] in s[..n];
    assert forall k | 0 <= k < m :: s[k] in s[..m];
  }

  /** What follows the first NUL does not matter. */
  lemma CStrPrefix(s: seq<byte>, n: nat)
    requires n <= |s| && 0 in s[..n]
    ensures CStr(s[..n]) == CStr(s) && 0 in s
  {
    var m := NulPos(s[..n]);
    assert s[..n][..m] == s[..m];
    CStrIs(s, m);
  }

  lemma CStrWithNul(s: seq<byte>)
    ensures CStr(s + [0]) == CStr(s)
  {
    var m := NulPos(s);
    assert (s + [0])[..m] == s[..m];
    CStrIs(s + [0], m);
  }

  // ----- Trimming

  predicate IsWs(c: byte)
  {
    c == SPACE || c == TAB || c == LF || c == CR || c == VT || c == FF
  }

  /** Space, tab, line feed, carriage return, vertical tab and form feed, and nothing else. */
  lemma WhitespaceIs(c: byte)
    ensures IsWs(c) <==> c in Ascii(" \t\n\r\U{0B}\U{0C}")
  {
    var six := Ascii(" \t\n\r\U{0B}\U{0C}");
    assert six == [32, 9, 10, 13, 11, 12];
  }

  predicate AllWs(s: seq<byte>)
  {
    forall k | 0 <= k < |s| :: IsWs(s[k])
  }

  function TrimLeft(s: seq<byte>): (r: seq<byte>)
    ensures |r| <= |s|
  {
    if s != [] && IsWs(s[0]) then TrimLeft(s[1..]) else s
  }

  function TrimRight(s: seq<byte>): (r: seq<byte>)
    ensures |r| <= |s|
  {
    if s != [] && IsWs(s[|s| - 1]) then TrimRight(s[..|s| - 1]) else s
  }

  /** The whitespace a left trim takes off. */
  function WsPrefix(s: seq<byte>): seq<byte>
  {
    s[..|s| - |TrimLeft(s)|]
  }

  lemma {:induction false} TrimLeftSplits(s: seq<byte>)
    ensures AllWs(WsPrefix(s)) && s == WsPrefix(s) + TrimLeft(s)
    ensures TrimLeft(s) != [] ==> !IsWs(TrimLeft(s)[0])
  {
    if s != [] && IsWs(s[0]) {
      TrimLeftSplits(s[1..]);
      assert WsPrefix(s) == [s[0]] + WsPrefix(s[1..]);
    }
  }

  lemma {:induction false} TrimRightSplits(s: seq<byte>)
    ensures var r := TrimRight(s); r == s[..|r|] && AllWs(s[|r|..]) && (r != [] ==> !IsWs(r[|r| - 1]))
  {
    if s != [] && IsWs(s[|s| - 1]) {
      var front := s[..|s| - 1];
      TrimRightSplits(front);
      var n := |TrimRight(front)|;
      assert s[..n] == front[..n] && s[n..] == front[n..] + [s[|s| - 1]];
    }
  }

  function Trim(s: seq<byte>): seq<byte>
  {
    TrimRight(TrimLeft(s))
  }

  /** `t` is what remains of `s` once whitespace is taken off both ends, and no more can be taken. */
  ghost predicate IsTrimOf(s: seq<byte>, t: seq<byte>)
  {
    && (t != [] ==> !IsWs(t[0]) && !IsWs(t[|t| - 1]))
    && exists a, b :: AllWs(a) && AllWs(b) && s == a + t + b
  }

  lemma TrimIsTrim(s: seq<byte>)
    ensures IsTrimOf(s, Trim(s)) && |Trim(s)| <= |s|
  {
    hide TrimLeft, TrimRight;
    var l := TrimLeft(s);
    var t := TrimRight(l);
    TrimLeftSplits(s);
    TrimRightSplits(l);
    assert l == t + l[|t|..];
    assert s == WsPrefix(s) + t + l[|t|..];
    assert t != [] ==> t[0] == l[0];
  }

  /** Skipping a whitespace prefix never changes what a left trim finds. */
  lemma {:induction false} TrimLeftSkips(a: seq<byte>, s: seq<byte>)
    requires AllWs(a)
    ensures TrimLeft(a + s) == TrimLeft(s)
  {
    if a == [] {
      assert a + s == s;
    } else {
      assert (a + s)[1..] == a[1..] + s;
      TrimLeftSkips(a[1..], s);
    }
  }

  lemma {:induction false} TrimRightSkips(s: seq<byte>, b: seq<byte>)
    requires AllWs(b)
    ensures TrimRight(s + b) == TrimRight(s)
  {
    if b == [] {
      assert s + b == s;
    } else {
      assert (s + b)[..|s + b| - 1] == s + b[..|b| - 1];
      TrimRightSkips(s, b[..|b| - 1]);
    }
  }

  /** The trimmed value is the only sequence meeting the declarative description. */
  lemma TrimUnique(s: seq<byte>, t: seq<byte>)
    ensures IsTrimOf(s, t) <==> t == Trim(s)
  {
    TrimIsTrim(s);
    if IsTrimOf(s, t) {
      var a, b :| AllWs(a) && AllWs(b) && s == a + t + b;
      assert s == a + (t + b);
      TrimLeftSkips(a, t + b);
      if t == [] {
        assert t + b == b && b + [] == b;
        TrimLeftSkips(b, []);
      } else {
        assert (t + b)[0] == t[0];
        TrimRightSkips(t, b);
      }
    }
  }

  lemma TrimIdempotent(s: seq<byte>)
    ensures Trim(Trim(s)) == Trim(s)
  {
    TrimIsTrim(s);
    var t := Trim(s);
    assert [] + t + [] == t;
    TrimUnique(t, t);
  }

  /** A C string to be trimmed: the code puts a NUL in the last byte of a buffer that holds none. */
  function BufferText(s: seq<byte>): CString
  {
    if 0 in s || s == [] then CStr(s) else s[..|s| - 1]
  }

  /** Finds the C string in the buffer, first putting a NUL in the last byte if the buffer holds none. */
  method TerminateBuffer(value: array<byte>, valueSize: nat) returns (len: nat)
    requires 0 < valueSize <= value.Length
    modifies value
    ensures len < valueSize && value[len] == 0
    ensures value[..len] == BufferText(old(value[..valueSize]))
    ensures value[valueSize..] == old(value[valueSize..])
  {
    ghost var before := value[..valueSize];
    len := 0;
    while len < valueSize && value[len] != 0
      invariant 0 <= len <= valueSize
      invariant 0 !in value[..len]
      invariant value[..] == old(value[..])
    {
      len := len + 1;
    }
    assert value[..len] == before[..len];
    if len == valueSize {
      value[valueSize - 1] := 0;
      len := valueSize - 1;
    } else {
      assert before[len] == 0;
      CStrIs(before, len);
    }
  }

  /** Moves the `count` bytes at `start` down to the front; source and destination overlap. */
  method ShiftDown(value: array<byte>, start: nat, count: nat)
    requires start + count <= value.Length
    modifies value
    ensures value[..count] == old(value[start..start + count])
    ensures value[start + count..] == old(value[start + count..])
  {
    var i := 0;
    while i < count
      invariant 0 <= i <= count
      invariant forall k | 0 <= k < i :: value[k] == old(value[start + k])
      invariant forall k | i <= k < value.Length :: value[k] == old(value[k])
    {
      value[i] := value[start + i];
      i := i + 1;
    }
  }

  /** The end of the C string once trailing whitespace is dropped. */
  method CutTail(value: array<byte>, len: nat) returns (end: nat)
    requires len <= value.Length
    ensures end <= len && value[..end] == TrimRight(value[..len])
  {
    end := len;
    while end > 0 && IsWs(value[end - 1])
      invariant 0 <= end <= len
      invariant TrimRight(value[..len]) == TrimRight(value[..end])
    {
      assert value[..end][..end - 1] == value[..end - 1];
      end := end - 1;
    }
  }

  /** The start of the C string once leading whitespace is dropped. */
  method SkipHead(value: array<byte>, len: nat) returns (start: nat)
    requires len <= value.Length
    ensures start <= len && value[start..len] == TrimLeft(value[..len])
  {
    start := 0;
    while start < len && IsWs(value[start])
      invariant 0 <= start <= len
      invariant TrimLeft(value[..len]) == TrimLeft(value[start..len])
    {
      assert value[start..len][1..] == value[start + 1..len];
      start := start + 1;
    }
  }

  /** Cuts the trailing whitespace of the C string at the front of the buffer. */
  method TerminateAtTail(value: array<byte>, len: nat, valueSize: nat)
    requires len < valueSize <= value.Length && 0 !in value[..len]
    modifies value
    ensures 0 in value[..valueSize]
    ensures CStr(value[..valueSize]) == TrimRight(old(value[..len]))
    ensures value[valueSize..] == old(value[valueSize..])
  {
    var end := CutTail(value, len);
    ghost var t := value[..end];
    value[end] := 0;
    assert value[..valueSize][..end] == t;
    assert value[..valueSize][end] == 0;
    CStrIs(value[..valueSize], end);
  }

  /** Trims in place: skip leading whitespace, shift the rest down over it, then cut trailing whitespace. */
  method TrimWhitespaceInPlace(value: array?<byte>, valueSize: nat)
    requires value != null ==> valueSize <= value.Length
    modifies value
    ensures value != null && valueSize > 0 ==>
              && 0 in value[..valueSize]
              && CStr(value[..valueSize]) == Trim(BufferText(old(value[..valueSize])))
    ensures value != null ==> value[valueSize..] == old(value[valueSize..])
  {
    if value == null || valueSize == 0 {
      return;
    }
    var len := TerminateBuffer(value, valueSize);
    ghost var text := value[..len];
    var start := SkipHead(value, len);
    if start > 0 {
      ShiftDown(value, start, len - start + 1);
      assert value[valueSize..] == value[len + 1..][valueSize - len - 1..];
    }
    len := len - start;
    assert value[..len] == TrimLeft(text) by {
      assert value[..len] == value[..len + 1][..len];
    }
    TerminateAtTail(value, len, valueSize);
  }
}
