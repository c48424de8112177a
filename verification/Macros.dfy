/** Macro streams and their optimiser, which turns runs of InsertChar into InsertString in place. */
module Macros {
  import opened Integers
  import opened FlatText
  import opened Characters

  const CHAR_STREAM_SIZE_INC := 2048

  lemma SpliceIs(r: seq<byte>, was: seq<byte>, pos: int, s: seq<byte>)
    requires 0 <= pos <= |was| && |r| == |was| + |s|
    requires forall k | 0 <= k < pos :: r[k] == was[k]
    requires forall k | pos <= k < pos + |s| :: r[k] == s[k - pos]
    requires forall k | pos + |s| <= k < |r| :: r[k] == was[k - |s|]
    ensures r == Splice(was, pos, s)
  {
  }

  class CharStream {
    var stream: array<byte>
    var len: int

    ghost predicate Valid()
      reads this
    {
      0 <= len <= stream.Length
    }

    ghost function Content(): seq<byte>
      requires Valid()
      reads this, stream
    {
      stream[..len]
    }

    constructor ()
      ensures Valid() && fresh(stream) && Content() == []
    {
      stream := new byte[0];
      len := 0;
    }

    /** realloc_char_stream() to a larger size. */
    method Realloc(size: int)
      requires Valid() && stream.Length <= size
      modifies this
      ensures Valid() && fresh(stream) && stream.Length == size && Content() == old(Content())
    {
      var bigger := new byte[size];
      var i := 0;
      while i < len
        invariant 0 <= i <= len && bigger[..i] == stream[..i]
        modifies bigger
      {
        bigger[i] := stream[i];
        i := i + 1;
      }
      stream := bigger;
    }

    /** memmove() of the `n` bytes at `from` to `to`, in either direction. */
    method Memmove(to: int, from: int, n: int)
      requires 0 <= n && 0 <= to && 0 <= from && to + n <= stream.Length && from + n <= stream.Length
      modifies stream
      ensures forall k | to <= k < to + n :: stream[k] == old(stream[k - to + from])
      ensures forall k | 0 <= k < to || to + n <= k < stream.Length :: stream[k] == old(stream[k])
    {
      var a := stream;
      if to <= from {
        var i := 0;
        while i < n
          invariant 0 <= i <= n
          invariant forall k | to <= k < to + i :: a[k] == old(a[k - to + from])
          invariant forall k | 0 <= k < to || to + i <= k < a.Length :: a[k] == old(a[k])
        {
          a[to + i] := a[from + i];
          i := i + 1;
        }
      } else {
        var i := n;
        while i > 0
          invariant 0 <= i <= n
          invariant forall k | to + i <= k < to + n :: a[k] == old(a[k - to + from])
          invariant forall k | 0 <= k < to + i || to + n <= k < a.Length :: a[k] == old(a[k])
        {
          i := i - 1;
          a[to + i] := a[from + i];
        }
      }
    }

    /** insert_in_stream(): there is nowhere to insert behind the end. */
    method InsertIn(s: seq<byte>, pos: int) returns (ok: bool)
      requires Valid() && 0 <= pos
      modifies this, stream
      ensures Valid() && (stream == old(stream) || fresh(stream))
      ensures ok <==> s == [] || pos <= old(len)
      ensures Content() == if ok && s != [] then Splice(old(Content()), pos, s) else old(Content())
    {
      ghost var was := Content();
      if s == [] {
        return true;
      }
      if pos > len {
        return false;
      }
      ok := true;
      if stream.Length - len < |s| {
        Realloc(len + |s| + CHAR_STREAM_SIZE_INC);
      }
      Place(s, pos, was);
    }

    method Place(s: seq<byte>, pos: int, ghost was: seq<byte>)
      requires Valid() && 0 <= pos <= len && len + |s| <= stream.Length && was == Content()
      modifies `len, stream
      ensures Valid() && Content() == Splice(was, pos, s)
    {
      var tail := len - pos;
      if tail > 0 {
        Memmove(pos + |s|, pos, tail);
      }
      Memcpy(pos, s);
      len := len + |s|;
      SpliceIs(Content(), was, pos, s);
    }

    method Memcpy(pos: int, s: seq<byte>)
      requires 0 <= pos && pos + |s| <= stream.Length
      modifies stream
      ensures forall k | pos <= k < pos + |s| :: stream[k] == s[k - pos]
      ensures forall k | 0 <= k < pos || pos + |s| <= k < stream.Length :: stream[k] == old(stream[k])
    {
      var a := stream;
      var i := 0;
      while i < |s|
        invariant 0 <= i <= |s|
        invariant forall k | pos <= k < pos + i :: a[k] == s[k - pos]
        invariant forall k | 0 <= k < pos || pos + i <= k < a.Length :: a[k] == old(a[k])
      {
        a[pos + i] := s[i];
        i := i + 1;
      }
    }

    /** delete_from_stream(): no more is deleted than there is in all, and that much has to be there
        from `pos` on. */
    method DeleteFrom(pos: int, n: int)
      requires Valid() && 0 <= pos && 0 <= n && (n == 0 || pos + Min(n, len) <= len)
      modifies this, stream
      ensures Valid() && stream == old(stream)
      ensures Content() == if n == 0 then old(Content()) else Cut(old(Content()), pos, Min(n, old(len)))
    {
      ghost var was := Content();
      if n == 0 {
        return;
      }
      var m := Min(n, len);
      Memmove(pos, pos + m, len - (pos + m));
      len := len - m;
      assert Content() == Cut(was, pos, m);
    }
  }

  const QUOTE: byte := 0x22

  predicate IsAlpha(c: byte): (b: bool)
    ensures b <==> 'a' as int <= c as int <= 'z' as int || 'A' as int <= c as int <= 'Z' as int
  {
    0x41 <= c <= 0x5A || 0x61 <= c <= 0x7A
  }

  predicate IsPrint(n: int) {
    0x20 <= n < 0x7F
  }

  /** The command tables: which names mean InsertChar and InsertString, and whether a command is a
      known one other than Undo. */
  datatype Lookup = Lookup(isInsertChar: seq<byte> -> bool, isInsertString: seq<byte> -> bool, safe: seq<byte> -> bool)

  datatype Act = Insert(chr: int) | Other(cmd: seq<byte>)

  function SkipBlanks(s: seq<byte>): seq<byte> {
    if s != [] && IsSpace(s[0]) then SkipBlanks(s[1..]) else s
  }

  function NameOf(s: seq<byte>): seq<byte> {
    if s == [] || IsSpace(s[0]) then [] else [s[0]] + NameOf(s[1..])
  }

  function ArgOf(s: seq<byte>): seq<byte> {
    if s == [] then [] else if IsSpace(s[0]) then SkipBlanks(s) else ArgOf(s[1..])
  }

  /** A string argument loses a pair of quotes around it. */
  function Unquote(s: seq<byte>): seq<byte> {
    if |s| > 1 && s[0] == QUOTE && s[|s| - 1] == QUOTE then s[1..|s| - 1] else s
  }

  function Inserts(s: seq<byte>): seq<Act> {
    if s == [] then [] else [Insert(s[0] as int)] + Inserts(s[1..])
  }

  // ---- Numbers: strtol() and strtoll() with base 0, where a long is 64 bits wide

  /** A number and what is left of the string behind it. */
  datatype Number = Number(value: int, rest: seq<byte>)

  const MAX_LONG := 0x7FFF_FFFF_FFFF_FFFF

  function DigitOf(c: byte): int {
    if 0x30 <= c <= 0x39 then c as int - 0x30
    else if 0x41 <= c <= 0x5A then c as int - 0x41 + 10
    else if 0x61 <= c <= 0x7A then c as int - 0x61 + 10
    else 36
  }

  function Digits(s: seq<byte>, base: int, n: nat): (r: Number)
    requires 0 < base
    ensures 0 <= r.value
  {
    if s == [] || DigitOf(s[0]) >= base then Number(n, s) else Digits(s[1..], base, n * base + DigitOf(s[0]))
  }

  predicate IsX(c: byte) {
    c == 0x58 || c == 0x78
  }

  /** A number without a sign, in the base its prefix tells. */
  function Magnitude(s: seq<byte>): (r: Number)
    requires s != [] && DigitOf(s[0]) < 10
    ensures 0 <= r.value
  {
    if s[0] != 0x30 then Digits(s, 10, 0)
    else if |s| > 2 && IsX(s[1]) && DigitOf(s[2]) < 16 then Digits(s[2..], 16, 0)
    else Digits(s, 8, 0)
  }

  const MINUS: byte := 0x2D
  const PLUS: byte := 0x2B

  /** A string without a number is 0, and all of it is left. */
  function StrToLong(s: seq<byte>): Number {
    var t := if s != [] && (s[0] == MINUS || s[0] == PLUS) then s[1..] else s;
    if t == [] || DigitOf(t[0]) >= 10 then Number(0, s)
    else
      var m := Magnitude(t);
      if s[0] == MINUS then Number(if m.value > MAX_LONG + 1 then -MAX_LONG - 1 else -m.value, m.rest)
      else Number(if m.value > MAX_LONG then MAX_LONG else m.value, m.rest)
  }

  /** A number written out in a base up to 16, where `ten` is the digit for 10. */
  function Written(n: nat, base: nat, ten: byte): (s: seq<byte>)
    requires 2 <= base <= 16 && (ten == 0x41 || ten == 0x61)
    ensures s != [] && DigitOf(s[0]) < base && (n > 0 ==> s[0] != 0x30)
    decreases n
  {
    if n < base then [DigitFor(n, ten)]
    else
      LastDigit(n, base);
      Written(n / base, base, ten) + [DigitFor(n % base, ten)]
  }

  function DigitFor(d: nat, ten: byte): (c: byte)
    requires d < 16 && (ten == 0x41 || ten == 0x61)
    ensures DigitOf(c) == d && (d > 0 ==> c != 0x30)
  {
    if d < 10 then 0x30 + d as byte else ten + (d - 10) as byte
  }

  lemma LastDigit(n: nat, base: nat)
    requires 2 <= base <= n
    ensures 0 < n / base < n && n / base * base + n % base == n
  {
    var q := n / base;
    assert q * base + n % base == n;
    assert q * base == q * 2 + q * (base - 2);
  }

  /** Written out behind its prefix, in base 10, 8 or 16, with small letters or capitals, a number is
      read back, with or without a sign and no further than a long goes, and what is behind it is left. */
  lemma NumberReadBack(n: int, base: nat, ten: byte, rest: seq<byte>)
    requires (base == 8 || base == 10 || base == 16) && (ten == 0x41 || ten == 0x61)
    requires 0 <= n && (base == 10 ==> n > 0) && (rest != [] ==> DigitOf(rest[0]) >= base)
    ensures var text := (if base == 8 then [0x30] else if base == 16 then [0x30, 0x78] else []) + Written(n, base, ten) + rest;
            && StrToLong(text) == Number(if n < 0x8000_0000_0000_0000 then n else 0x7FFF_FFFF_FFFF_FFFF, rest)
            && StrToLong([MINUS] + text) == Number(if n < 0x8000_0000_0000_0000 then -n else -0x8000_0000_0000_0000, rest)
            && StrToLong([PLUS] + text) == StrToLong(text)
  {
    hide Digits, Written, Magnitude;
    var prefix := if base == 8 then [0x30] else if base == 16 then [0x30, 0x78] else [];
    var s := prefix + Written(n, base, ten) + rest;
    DigitsReadBack(n, base, ten, rest);
    EndOfDigits(rest, base, n);
    MagnitudeBehind(base, prefix, Written(n, base, ten) + rest);
    assert s == prefix + (Written(n, base, ten) + rest) && ([MINUS] + s)[1..] == s && ([PLUS] + s)[1..] == s;
  }

  /** The prefix tells the base. */
  lemma MagnitudeBehind(base: nat, prefix: seq<byte>, digits: seq<byte>)
    requires digits != [] && DigitOf(digits[0]) < base
    requires (base == 8 && prefix == [0x30]) || (base == 10 && prefix == [] && digits[0] != 0x30)
             || (base == 16 && prefix == [0x30, 0x78])
    ensures DigitOf((prefix + digits)[0]) < 10 && Magnitude(prefix + digits) == Digits(digits, base, 0)
  {
    hide Digits;
    var s := prefix + digits;
    if base == 8 {
      assert s[1] == digits[0];
      LeadingZero(s);
      assert s[1..] == digits;
    } else if base == 16 {
      assert s[2] == digits[0] && s[2..] == digits;
    } else {
      assert s == digits;
    }
  }

  lemma {:induction false} DigitsReadBack(n: nat, base: nat, ten: byte, rest: seq<byte>)
    requires 2 <= base <= 16 && (ten == 0x41 || ten == 0x61)
    ensures Digits(Written(n, base, ten) + rest, base, 0) == Digits(rest, base, n)
    decreases n
  {
    hide DigitOf;
    if n < base {
      assert ([DigitFor(n, ten)] + rest)[1..] == rest;
    } else {
      LastDigit(n, base);
      var c := DigitFor(n % base, ten);
      DigitsReadBack(n / base, base, ten, [c] + rest);
      assert ([c] + rest)[1..] == rest;
      assert Written(n, base, ten) + rest == Written(n / base, base, ten) + ([c] + rest);
    }
  }

  lemma EndOfDigits(s: seq<byte>, base: nat, n: nat)
    requires 0 < base && (s != [] ==> DigitOf(s[0]) >= base)
    ensures Digits(s, base, n) == Number(n, s)
  {
  }

  lemma LeadingZero(s: seq<byte>)
    requires s != [] && s[0] == 0x30
    ensures Digits(s, 8, 0) == Digits(s[1..], 8, 0)
  {
  }

  /** The conversion of a long to a 32-bit int. */
  function ToInt(n: int): int {
    (n + 0x8000_0000) % 0x1_0000_0000 - 0x8000_0000
  }

  // ---- The two readings of a command

  /** insertchar_val(): the optimiser takes any number that goes to the end of the command, as an int. */
  function InsertCharVal(lk: Lookup, cmd: seq<byte>): (v: int) {
    var p := SkipBlanks(cmd);
    if p != [] && IsAlpha(p[0]) && lk.isInsertChar(NameOf(p)) then
      var n := StrToLong(ArgOf(p));
      if n.rest != [] || ToInt(n.value) < 0 then 0 else ToInt(n.value)
    else 0
  }

  predicate StartsNumber(arg: seq<byte>) {
    arg != [] && (DigitOf(arg[0]) < 16 || IsX(arg[0]))
  }

  /** The numeric argument as parse_command_line() takes it when the command is executed: it has to
      begin with a hexadecimal digit or an `x`, and a blank may follow it. */
  function NumArg(arg: seq<byte>): (n: Option<int>) {
    if StartsNumber(arg) then
      var n := StrToLong(arg);
      if n.rest != [] && !IsSpace(n.rest[0]) then None else Some(n.value)
    else None
  }

  datatype Option<T> = None | Some(value: T)

  /** What a command line does, InsertString being read as one InsertChar per character. A command
      that asks for its argument or is refused is its own action. */
  function Acts(lk: Lookup, cmd: seq<byte>): seq<Act> {
    var p := SkipBlanks(cmd);
    if p == [] || !IsAlpha(p[0]) then []
    else if lk.isInsertChar(NameOf(p)) then
      if NumArg(ArgOf(p)).Some? then [Insert(NumArg(ArgOf(p)).value)] else [Other(cmd)]
    else if lk.isInsertString(NameOf(p)) && Unquote(ArgOf(p)) != [] then Inserts(Unquote(ArgOf(p)))
    else [Other(cmd)]
  }

  /** The actions of a list of commands. A stream holds them with a NUL behind each. */
  function Denote(lk: Lookup, cmds: seq<Line>): seq<Act> {
    if cmds == [] then [] else Acts(lk, cmds[0]) + Denote(lk, cmds[1..])
  }

  lemma {:induction false} DenoteAppend(lk: Lookup, a: seq<Line>, b: seq<Line>)
    ensures Denote(lk, a + b) == Denote(lk, a) + Denote(lk, b)
  {
    hide Acts;
    if a == [] {
      assert a + b == b;
    } else {
      assert (a + b)[1..] == a[1..] + b;
      DenoteAppend(lk, a[1..], b);
    }
  }

  lemma DenoteFirst(lk: Lookup, cmds: seq<Line>)
    requires cmds != []
    ensures Denote(lk, cmds) == Acts(lk, cmds[0]) + Denote(lk, cmds[1..])
  {
  }

  lemma DenoteOne(lk: Lookup, cmd: Line)
    ensures Denote(lk, [cmd]) == Acts(lk, cmd)
  {
    hide Acts;
    assert [cmd][1..] == [] && Denote(lk, []) == [];
  }

  /** Whether both readings of the argument of a command agree: it begins as a number has to, and it
      is less than 2^31. */
  predicate Agrees(cmd: Line) {
    var arg := ArgOf(SkipBlanks(cmd));
    StartsNumber(arg) && StrToLong(arg).value < 0x8000_0000
  }

  /** A command that the optimiser takes for the insertion of a character inserts that character
      when executed exactly if the two readings agree. */
  lemma AgreesIff(lk: Lookup, cmd: Line)
    requires InsertCharVal(lk, cmd) != 0
    ensures |Acts(lk, cmd)| == 1
    ensures Acts(lk, cmd) == [Insert(InsertCharVal(lk, cmd))] <==> Agrees(cmd)
  {
    var arg := ArgOf(SkipBlanks(cmd));
    var n := StrToLong(arg).value;
    assert arg != [];
    if StartsNumber(arg) {
      assert n >= 0;
      assert ToInt(n) == n <==> n < 0x8000_0000;
    }
  }

  /** Every stream that ends with a NUL is one of commands. */
  function CommandsOf(s: seq<byte>): (cmds: seq<Line>)
    requires s != [] ==> s[|s| - 1] == 0
    ensures Before(cmds) == s && forall i | 0 <= i < |cmds| :: NoNul(cmds[i])
    decreases |s|
  {
    if s == [] then []
    else if s[0] == 0 then
      assert s == [] + [0] + s[1..];
      [[]] + CommandsOf(s[1..])
    else
      var r := CommandsOf(s[1..]);
      assert s == [s[0]] + s[1..];
      LongerFirst(s[0], r);
      [[s[0]] + r[0]] + r[1..]
  }

  lemma LongerFirst(c: byte, cmds: seq<Line>)
    requires c != 0 && cmds != [] && forall i | 0 <= i < |cmds| :: NoNul(cmds[i])
    ensures var longer := [[c] + cmds[0]] + cmds[1..];
            Before(longer) == [c] + Before(cmds) && forall i | 0 <= i < |longer| :: NoNul(longer[i])
  {
    assert ([[c] + cmds[0]] + cmds[1..])[1..] == cmds[1..];
    assert [c] + (cmds[0] + [0] + Before(cmds[1..])) == ([c] + cmds[0]) + [0] + Before(cmds[1..]);
  }

  /** And of these commands only. */
  lemma {:induction false} CommandsUnique(a: seq<Line>, b: seq<Line>)
    requires forall i | 0 <= i < |a| :: NoNul(a[i])
    requires forall i | 0 <= i < |b| :: NoNul(b[i])
    requires Before(a) == Before(b)
    ensures a == b
  {
    if a != [] && b != [] {
      var s, n, m := Before(a), |a[0]|, |b[0]|;
      assert s[..n] == a[0] && s[n] == 0 && s[n + 1..] == Before(a[1..]);
      assert s[..m] == b[0] && s[m] == 0 && s[m + 1..] == Before(b[1..]);
      assert forall k | 0 <= k < n :: s[k] == a[0][k];
      assert forall k | 0 <= k < m :: s[k] == b[0][k];
      CommandsUnique(a[1..], b[1..]);
    }
  }

  /** A name as the command tables have it. */
  predicate IsName(lk: Lookup, name: seq<byte>) {
    && name != [] && IsAlpha(name[0]) && lk.isInsertString(name) && !lk.isInsertChar(name)
    && 0 !in name && forall k | 0 <= k < |name| :: !IsSpace(name[k])
  }

  lemma SomeName(lk: Lookup, name: seq<byte>)
    requires IsName(lk, name)
    ensures name != []
  {
  }

  function StringCommand(name: seq<byte>, chars: seq<byte>): seq<byte> {
    name + [SPACE, QUOTE] + chars + [QUOTE]
  }

  lemma {:induction false} NameInFront(name: seq<byte>, rest: seq<byte>)
    requires rest != [] && rest[0] == SPACE && forall k | 0 <= k < |name| :: !IsSpace(name[k])
    ensures NameOf(name + rest) == name && ArgOf(name + rest) == SkipBlanks(rest)
  {
    if name == [] {
      assert name + rest == rest;
    } else {
      assert (name + rest)[1..] == name[1..] + rest;
      NameInFront(name[1..], rest);
    }
  }

  /** An InsertString command denotes the insertion of its characters, whatever they are: the
      quotes around them are told from quotes among them. */
  lemma StringCommandActs(lk: Lookup, name: seq<byte>, chars: seq<byte>)
    requires IsName(lk, name) && chars != []
    ensures Acts(lk, StringCommand(name, chars)) == Inserts(chars)
  {
    var cmd := StringCommand(name, chars);
    var arg := [QUOTE] + chars + [QUOTE];
    assert cmd == name + ([SPACE] + arg);
    assert cmd[0] == name[0];
    assert SkipBlanks(cmd) == cmd;
    NameInFront(name, [SPACE] + arg);
    assert ([SPACE] + arg)[1..] == arg && SkipBlanks(arg) == arg;
    assert SkipBlanks([SPACE] + arg) == arg;
    assert Unquote(arg) == chars;
  }

  lemma {:induction false} InsertsAppend(s: seq<byte>, c: byte)
    ensures Inserts(s + [c]) == Inserts(s) + [Insert(c as int)]
  {
    if s == [] {
      assert s + [c] == [c] && [c][1..] == [];
    } else {
      assert (s + [c])[1..] == s[1..] + [c];
      InsertsAppend(s[1..], c);
    }
  }

  /** Whether the first of these commands is merged: it inserts a printable ASCII character, and no
      command from there on is unsafe. */
  predicate Merges(lk: Lookup, todo: seq<Line>)
    requires todo != []
  {
    && 0x20 <= InsertCharVal(lk, todo[0]) <= 0x7E
    && forall i | 0 <= i < |todo| :: lk.safe(todo[i])
  }

  /** What the optimiser takes the commands for: those it merges insert the character it reads. */
  function Meant(lk: Lookup, cmds: seq<Line>): seq<Act> {
    if cmds == [] then []
    else (if Merges(lk, cmds) then [Insert(InsertCharVal(lk, cmds[0]))] else Acts(lk, cmds[0])) + Meant(lk, cmds[1..])
  }

  /** All commands that are merged are read alike by the optimiser and the executor. */
  ghost predicate AllAgree(lk: Lookup, cmds: seq<Line>) {
    forall i | 0 <= i < |cmds| && Merges(lk, cmds[i..]) :: Agrees(cmds[i])
  }

  /** The optimiser takes the commands for what they are exactly if that is so. */
  lemma {:induction false} MeantIsDenoted(lk: Lookup, cmds: seq<Line>)
    ensures |Meant(lk, cmds)| == |Denote(lk, cmds)|
    ensures Meant(lk, cmds) == Denote(lk, cmds) <==> AllAgree(lk, cmds)
  {
    if cmds != [] {
      hide Acts, InsertCharVal, Agrees, Merges, Denote;
      var x := if Merges(lk, cmds) then [Insert(InsertCharVal(lk, cmds[0]))] else Acts(lk, cmds[0]);
      var y, u, v := Acts(lk, cmds[0]), Meant(lk, cmds[1..]), Denote(lk, cmds[1..]);
      DenoteFirst(lk, cmds);
      MeantIsDenoted(lk, cmds[1..]);
      FirstMeant(lk, cmds);
      assert |x| == |y| && |u| == |v|;
      assert x + u == y + v <==> x == y && u == v by {
        assert (x + u)[..|x|] == x && (x + u)[|x|..] == u && (y + v)[..|x|] == y && (y + v)[|x|..] == v;
      }
      AgreeFirst(lk, cmds);
    } else {
      assert Denote(lk, cmds) == [];
    }
  }

  lemma FirstMeant(lk: Lookup, cmds: seq<Line>)
    requires cmds != []
    ensures Merges(lk, cmds) ==> |Acts(lk, cmds[0])| == 1
    ensures Merges(lk, cmds) ==> (Acts(lk, cmds[0]) == [Insert(InsertCharVal(lk, cmds[0]))] <==> Agrees(cmds[0]))
  {
    if Merges(lk, cmds) {
      AgreesIff(lk, cmds[0]);
    }
  }

  lemma AgreeFirst(lk: Lookup, cmds: seq<Line>)
    requires cmds != []
    ensures AllAgree(lk, cmds) <==> (Merges(lk, cmds) ==> Agrees(cmds[0])) && AllAgree(lk, cmds[1..])
  {
    hide Merges, Agrees;
    assert cmds[0..] == cmds;
    assert forall i | 0 <= i < |cmds[1..]| :: cmds[1..][i] == cmds[i + 1] && cmds[1..][i..] == cmds[i + 1..];
    if AllAgree(lk, cmds) {
      forall i | 0 <= i < |cmds[1..]| && Merges(lk, cmds[1..][i..])
        ensures Agrees(cmds[1..][i])
      {
        assert Merges(lk, cmds[i + 1..]);
      }
    }
    if (Merges(lk, cmds) ==> Agrees(cmds[0])) && AllAgree(lk, cmds[1..]) {
      forall i | 0 <= i < |cmds| && Merges(lk, cmds[i..])
        ensures Agrees(cmds[i])
      {
        if i > 0 {
          assert cmds[1..][i - 1..] == cmds[i..];
        }
      }
    }
  }

  function Run(name: seq<byte>, chars: seq<byte>): seq<Line> {
    if chars == [] then [] else [StringCommand(name, chars)]
  }

  /** What the optimiser makes of `todo` behind a run of `chars`: maximal runs become one command. */
  function Optimized(lk: Lookup, name: seq<byte>, todo: seq<Line>, chars: seq<byte>): seq<Line> {
    if todo == [] then Run(name, chars)
    else if Merges(lk, todo) then Optimized(lk, name, todo[1..], chars + [InsertCharVal(lk, todo[0]) as byte])
    else Run(name, chars) + [todo[0]] + Optimized(lk, name, todo[1..], [])
  }

  /** The loop of the optimiser at a command boundary: `done` has been gone through, and if a run is
      being built, its last command is an InsertString whose last character is at `building`. */
  ghost predicate Midway(lk: Lookup, name: seq<byte>, cmds: seq<Line>, done: seq<Line>, todo: seq<Line>,
                         building: int, chars: seq<byte>)
  {
    && Meant(lk, cmds) == Denote(lk, done) + Meant(lk, todo)
    && (building == 0 ==> chars == [] && Optimized(lk, name, cmds, []) == done + Optimized(lk, name, todo, []))
    && (building != 0 ==>
          && chars != [] && NoNul(chars) && done != [] && done[|done| - 1] == StringCommand(name, chars)
          && building == |Before(done[..|done| - 1])| + |name| + 2 + |chars| - 1
          && Optimized(lk, name, cmds, []) == done[..|done| - 1] + Optimized(lk, name, todo, chars))
  }

  /** The first command counts as gone through, or another one that does what it is taken for. */
  lemma StepOver(lk: Lookup, cmds: seq<Line>, done: seq<Line>, todo: seq<Line>, cmd: Line)
    requires todo != [] && Meant(lk, cmds) == Denote(lk, done) + Meant(lk, todo)
    requires Acts(lk, cmd) == if Merges(lk, todo) then [Insert(InsertCharVal(lk, todo[0]))] else Acts(lk, todo[0])
    ensures Meant(lk, cmds) == Denote(lk, done + [cmd]) + Meant(lk, todo[1..])
  {
    hide Acts, Denote, Merges, InsertCharVal, Meant;
    MeantFirst(lk, todo);
    DenoteOne(lk, cmd);
    DenoteAppend(lk, done, [cmd]);
    var x, y, z := Denote(lk, done), Acts(lk, cmd), Meant(lk, todo[1..]);
    assert x + (y + z) == (x + y) + z;
  }

  lemma StepBegin(lk: Lookup, name: seq<byte>, cmds: seq<Line>, done: seq<Line>, todo: seq<Line>, c: byte)
    requires todo != [] && Midway(lk, name, cmds, done, todo, 0, []) && IsName(lk, name) && c != 0
    requires InsertCharVal(lk, todo[0]) == c as int && Merges(lk, todo)
    ensures Midway(lk, name, cmds, done + [StringCommand(name, [c])], todo[1..], |Before(done)| + |name| + 2, [c])
  {
    hide Acts, InsertCharVal, Inserts, Denote, IsName, Merges;
    StringCommandActs(lk, name, [c]);
    OneInsert(c);
    StepOver(lk, cmds, done, todo, StringCommand(name, [c]));
    assert (done + [StringCommand(name, [c])])[..|done|] == done;
    assert [] + [c] == [c];
  }

  lemma OneInsert(c: byte)
    ensures Inserts([c]) == [Insert(c as int)]
  {
    assert [c][1..] == [] && Inserts([]) == [];
  }

  /** One more character of a run goes in front of the closing quote. */
  lemma StepExtend(lk: Lookup, name: seq<byte>, cmds: seq<Line>, done: seq<Line>, todo: seq<Line>, c: byte,
                   building: int, chars: seq<byte>) returns (done': seq<Line>)
    requires todo != [] && building != 0 && Midway(lk, name, cmds, done, todo, building, chars) && IsName(lk, name) && c != 0
    requires InsertCharVal(lk, todo[0]) == c as int && Merges(lk, todo)
    ensures done' != [] && building + 1 <= |Before(done)| && Before(done') == Splice(Before(done), building + 1, [c])
    ensures Midway(lk, name, cmds, done', todo[1..], building + 1, chars + [c])
  {
    hide Acts, InsertCharVal, Inserts, Denote, IsName, Merges, Before;
    var head, last := done[..|done| - 1], StringCommand(name, chars);
    assert done == head + [last];
    var longer := StringCommand(name, chars + [c]);
    done' := head + [longer];
    StringCommandActs(lk, name, chars);
    StringCommandActs(lk, name, chars + [c]);
    InsertsAppend(chars, c);
    ExtendRun(lk, cmds, head, last, longer, todo, c);
    GrownBytes(name, head, chars, c);
    assert done'[..|done'| - 1] == head;
  }

  lemma GrownBytes(name: seq<byte>, head: seq<Line>, chars: seq<byte>, c: byte)
    ensures var at := |Before(head)| + |name| + 2 + |chars|;
            && at <= |Before(head + [StringCommand(name, chars)])|
            && Splice(Before(head + [StringCommand(name, chars)]), at, [c]) == Before(head + [StringCommand(name, chars + [c])])
  {
    hide Before;
    var last, longer := StringCommand(name, chars), StringCommand(name, chars + [c]);
    BeforeOne(head, last);
    BeforeOne(head, longer);
    assert Splice(Before(head) + (last + [0]), |Before(head)| + |name| + 2 + |chars|, [c]) == Before(head) + (longer + [0]);
  }

  lemma ExtendRun(lk: Lookup, cmds: seq<Line>, head: seq<Line>, last: Line, longer: Line, todo: seq<Line>, c: byte)
    requires todo != [] && Meant(lk, cmds) == Denote(lk, head + [last]) + Meant(lk, todo)
    requires Acts(lk, longer) == Acts(lk, last) + [Insert(c as int)] && Merges(lk, todo) && InsertCharVal(lk, todo[0]) == c as int
    ensures Meant(lk, cmds) == Denote(lk, head + [longer]) + Meant(lk, todo[1..])
  {
    hide Acts, Merges, InsertCharVal, Denote, Meant;
    DenoteAppend(lk, head, [last]);
    DenoteAppend(lk, head, [longer]);
    DenoteOne(lk, last);
    DenoteOne(lk, longer);
    MeantFirst(lk, todo);
    var x, y, z, u := Denote(lk, head), Acts(lk, last), [Insert(c as int)], Meant(lk, todo[1..]);
    assert x + y + (z + u) == x + (y + z) + u;
  }

  lemma MeantFirst(lk: Lookup, cmds: seq<Line>)
    requires cmds != []
    ensures Meant(lk, cmds) == (if Merges(lk, cmds) then [Insert(InsertCharVal(lk, cmds[0]))] else Acts(lk, cmds[0])) + Meant(lk, cmds[1..])
  {
  }

  /** vet_optimize_macro_stream(): every command from `pos` on is safe. */
  method Vet(cs: CharStream, start: int, lk: Lookup, ghost todo: seq<Line>) returns (safe: bool)
    requires cs.Valid() && 0 <= start <= cs.len && cs.Content()[start..] == Before(todo)
    requires forall i | 0 <= i < |todo| :: NoNul(todo[i])
    ensures safe <==> forall i | 0 <= i < |todo| :: lk.safe(todo[i])
  {
    var pos := start;
    ghost var i := 0;
    assert todo[0..] == todo;
    while pos < cs.len
      invariant start <= pos <= cs.len && 0 <= i <= |todo| && cs.Content()[pos..] == Before(todo[i..])
      invariant forall k | 0 <= k < i :: lk.safe(todo[k])
    {
      var cmd := CommandAt(cs, pos, todo[i..]);
      if !lk.safe(cmd) {
        return false;
      }
      assert todo[i..][1..] == todo[i + 1..];
      pos := pos + |cmd| + 1;
      i := i + 1;
    }
    safe := true;
  }

  /** The command line at `pos`: up to its NUL. */
  method CommandAt(cs: CharStream, pos: int, ghost todo: seq<Line>) returns (cmd: Line)
    requires cs.Valid() && 0 <= pos < cs.len && cs.Content()[pos..] == Before(todo)
    requires forall i | 0 <= i < |todo| :: NoNul(todo[i])
    ensures todo != [] && cmd == todo[0] && pos + |cmd| + 1 <= cs.len
    ensures cs.Content()[pos + |cmd| + 1..] == Before(todo[1..])
  {
    ghost var c := cs.Content();
    ghost var first := todo[0];
    assert c[pos..] == first + [0] + Before(todo[1..]);
    assert forall k | 0 <= k < |first| :: c[pos..][k] == first[k];
    assert c[pos..][|first|] == 0;
    var n := 0;
    while cs.stream[pos + n] != 0
      invariant 0 <= n <= |first| && pos + |first| < cs.len
      decreases |first| - n
    {
      assert cs.stream[pos + n] == c[pos..][n];
      n := n + 1;
    }
    assert cs.stream[pos + n] == c[pos..][n];
    cmd := cs.stream[pos..pos + n];
    assert cmd == first;
    assert c[pos + n + 1..] == c[pos..][n + 1..];
  }

  /** The four insertions that put an InsertString command in place of a deleted one. */
  method BeginRun(cs: CharStream, pos: int, cmd: Line, name: seq<byte>, c: byte, ghost a: seq<byte>, ghost b: seq<byte>)
    requires cs.Valid() && cs.Content() == a + (cmd + [0]) + b && pos == |a| && name != []
    modifies cs, cs.stream
    ensures cs.Valid() && (cs.stream == old(cs.stream) || fresh(cs.stream))
    ensures cs.Content() == a + (StringCommand(name, [c]) + [0]) + b
  {
    hide Splice, Cut;
    var ok;
    CutFront(a, cmd + [0], b);
    cs.DeleteFrom(pos, |cmd| + 1);
    SpliceFront(a, [], b, [QUOTE, 0]);
    ok := cs.InsertIn([QUOTE, 0], pos);
    SpliceFront(a, [QUOTE, 0], b, [c]);
    ok := cs.InsertIn([c], pos);
    NameTheRun(cs, pos, name, [c] + [QUOTE, 0], a, b);
    assert name + ([SPACE, QUOTE] + ([c] + [QUOTE, 0])) == StringCommand(name, [c]) + [0];
  }

  /** The last two of them: what goes in front of the character. */
  method NameTheRun(cs: CharStream, pos: int, name: seq<byte>, ghost m: seq<byte>, ghost a: seq<byte>, ghost b: seq<byte>)
    requires cs.Valid() && cs.Content() == a + m + b && pos == |a| && name != []
    modifies cs, cs.stream
    ensures cs.Valid() && (cs.stream == old(cs.stream) || fresh(cs.stream))
    ensures cs.Content() == a + (name + ([SPACE, QUOTE] + m)) + b
  {
    hide Splice;
    SpliceFront(a, m, b, [SPACE, QUOTE]);
    var ok := cs.InsertIn([SPACE, QUOTE], pos);
    SpliceFront(a, [SPACE, QUOTE] + m, b, name);
    ok := cs.InsertIn(name, pos);
  }

  lemma CutFront(a: seq<byte>, m: seq<byte>, b: seq<byte>)
    ensures Cut(a + m + b, |a|, |m|) == a + [] + b
  {
  }

  lemma SpliceFront(a: seq<byte>, m: seq<byte>, b: seq<byte>, s: seq<byte>)
    ensures Splice(a + m + b, |a|, s) == a + (s + m) + b
    ensures m == [] ==> s + m == s
  {
  }

  /** Deletes the command and puts its character at the end of the run in front of it. */
  method GrowRun(cs: CharStream, pos: int, cmd: Line, c: byte, building: int, ghost a: seq<byte>, ghost b: seq<byte>)
    requires cs.Valid() && cs.Content() == a + (cmd + [0]) + b && pos == |a| && 0 <= building <= |a|
    modifies cs, cs.stream
    ensures cs.Valid() && (cs.stream == old(cs.stream) || fresh(cs.stream))
    ensures cs.Content() == Splice(a, building, [c]) + b
  {
    cs.DeleteFrom(pos, |cmd| + 1);
    assert cs.Content() == a + b;
    SplicedInFront(a, b, building, [c]);
    var ok := cs.InsertIn([c], building);
  }

  lemma SplicedInFront(a: seq<byte>, b: seq<byte>, o: int, s: seq<byte>)
    requires 0 <= o <= |a|
    ensures Splice(a + b, o, s) == Splice(a, o, s) + b
  {
    assert (a + b)[..o] == a[..o] && (a + b)[o..] == a[o..] + b;
  }

  lemma MidwayStarts(lk: Lookup, name: seq<byte>, cmds: seq<Line>)
    ensures Midway(lk, name, cmds, [], cmds, 0, [])
  {
    assert Denote(lk, []) == [];
  }

  lemma MidwayOver(lk: Lookup, name: seq<byte>, cmds: seq<Line>, done: seq<Line>, todo: seq<Line>, building: int, chars: seq<byte>)
    requires todo != [] && Midway(lk, name, cmds, done, todo, building, chars) && !Merges(lk, todo)
    ensures Midway(lk, name, cmds, done + [todo[0]], todo[1..], 0, [])
  {
    hide Acts, Denote, Merges, StringCommand, InsertCharVal, Meant, Optimized;
    StepOver(lk, cmds, done, todo, todo[0]);
    var rest := Optimized(lk, name, todo[1..], []);
    OptimizedOver(lk, name, todo, chars);
    if building == 0 {
      assert Run(name, chars) + [todo[0]] == [todo[0]];
      assert done + ([todo[0]] + rest) == done + [todo[0]] + rest;
    } else {
      var head := done[..|done| - 1];
      assert done == head + Run(name, chars);
      assert head + (Run(name, chars) + [todo[0]] + rest) == done + [todo[0]] + rest;
    }
  }

  lemma OptimizedOver(lk: Lookup, name: seq<byte>, todo: seq<Line>, chars: seq<byte>)
    requires todo != [] && !Merges(lk, todo)
    ensures Optimized(lk, name, todo, chars) == Run(name, chars) + [todo[0]] + Optimized(lk, name, todo[1..], [])
  {
  }

  lemma MidwayEnds(lk: Lookup, name: seq<byte>, cmds: seq<Line>, done: seq<Line>, building: int, chars: seq<byte>)
    requires Midway(lk, name, cmds, done, [], building, chars)
    ensures Denote(lk, done) == Meant(lk, cmds) && done == Optimized(lk, name, cmds, [])
  {
    hide StringCommand;
    assert Meant(lk, []) == [];
    if building != 0 {
      assert done == done[..|done| - 1] + Run(name, chars);
    }
  }

  lemma BeforeOne(cmds: seq<Line>, cmd: Line)
    ensures Before(cmds + [cmd]) == Before(cmds) + (cmd + [0])
  {
    BeforeAppend(cmds, [cmd]);
    assert [cmd][1..] == [] && Before([cmd]) == cmd + [0] + Before([]);
  }

  lemma NulInFront(done: seq<Line>, todo: seq<Line>, nul: int)
    requires done != [] && nul + 1 == |Before(done)| && forall i | 0 <= i < |todo| :: NoNul(todo[i])
    ensures 0 <= nul && (Before(done) + Before(todo))[nul..] == Before([[]] + todo)
    ensures forall i | 0 <= i <= |todo| :: NoNul(([[]] + todo)[i])
  {
    hide Before;
    var head, last := done[..|done| - 1], done[|done| - 1];
    assert done == head + [last];
    BeforeOne(head, last);
    NulBehind(Before(head), last, Before(todo));
    EmptyInFront(todo);
  }

  lemma NulBehind(a: seq<byte>, l: Line, b: seq<byte>)
    ensures (a + (l + [0]) + b)[|a| + |l|..] == [0] + b
  {
  }

  lemma EmptyInFront(todo: seq<Line>)
    ensures Before([[]] + todo) == [0] + Before(todo) && ([[]] + todo)[1..] == todo
  {
  }

  /** From the terminator just in front of a command boundary to the boundary. */
  method AfterNul(cs: CharStream, nul: int, ghost done: seq<Line>, ghost todo: seq<Line>) returns (pos: int)
    requires cs.Valid() && cs.Content() == Before(done) + Before(todo) && done != [] && nul + 1 == |Before(done)|
    requires forall i | 0 <= i < |todo| :: NoNul(todo[i])
    ensures pos == |Before(done)|
  {
    hide Before, NoNul;
    NulInFront(done, todo, nul);
    var cmd := CommandAt(cs, nul, [[]] + todo);
    pos := nul + |cmd| + 1;
  }

  lemma NothingLeft(todo: seq<Line>)
    requires Before(todo) == []
    ensures todo == []
  {
  }

  /** A printable InsertChar at `pos` begins a run or joins the one in front of it. The new `pos` is
      the next command boundary. */
  method Rewrite(cs: CharStream, pos: int, cmd: Line, name: seq<byte>, c: byte, building: int, ghost lk: Lookup,
                 ghost cmds: seq<Line>, ghost done: seq<Line>, ghost todo: seq<Line>, ghost chars: seq<byte>)
      returns (pos': int, building': int, ghost done': seq<Line>, ghost chars': seq<byte>)
    requires cs.Valid() && todo != [] && cmd == todo[0] && IsName(lk, name) && c != 0 && InsertCharVal(lk, cmd) == c as int && Merges(lk, todo)
    requires cs.Content() == Before(done) + (cmd + [0]) + Before(todo[1..]) && pos == |Before(done)| && building >= 0
    requires Midway(lk, name, cmds, done, todo, building, chars) && (building == 0 ==> chars == [])
    requires forall i | 0 <= i < |todo| :: NoNul(todo[i])
    modifies cs, cs.stream
    ensures cs.Valid() && (cs.stream == old(cs.stream) || fresh(cs.stream))
    ensures cs.Content() == Before(done') + Before(todo[1..]) && pos' == |Before(done')| && building' > 0
    ensures Midway(lk, name, cmds, done', todo[1..], building', chars')
  {
    hide Denote, Acts, InsertCharVal, Midway, IsName, Optimized, Merges;
    ghost var a, b := Before(done), Before(todo[1..]);
    if building != 0 {
      done' := StepExtend(lk, name, cmds, done, todo, c, building, chars);
      building' := building + 1;
      GrowRun(cs, pos, cmd, c, building', a, b);
      chars' := chars + [c];
      pos' := AfterNul(cs, pos, done', todo[1..]);
    } else {
      StepBegin(lk, name, cmds, done, todo, c);
      SomeName(lk, name);
      BeginRun(cs, pos, cmd, name, c, a, b);
      building' := pos + |name| + 2;
      BeforeOne(done, StringCommand(name, [c]));
      done', chars' := done + [StringCommand(name, [c])], [c];
      pos' := pos + |StringCommand(name, [c])| + 1;
    }
  }

  /** optimize_macro(). */
  method OptimizeMacro(cs: CharStream, name: seq<byte>, lk: Lookup, ghost cmds: seq<Line>) returns (ghost after: seq<Line>)
    requires cs.Valid() && cs.Content() == Before(cmds) && IsName(lk, name)
    requires forall i | 0 <= i < |cmds| :: NoNul(cmds[i])
    modifies cs, cs.stream
    ensures cs.Valid() && cs.Content() == Before(after) && after == Optimized(lk, name, cmds, [])
    ensures Denote(lk, after) == Denote(lk, cmds) <==> AllAgree(lk, cmds)
  {
    hide Denote, Acts, InsertCharVal, Midway, Optimized, Meant, AllAgree;
    var building, pos := 0, 0;
    ghost var todo, chars := cmds, [];
    after := [];
    MidwayStarts(lk, name, cmds);
    while pos < cs.len
      invariant cs.Valid() && (cs.stream == old(cs.stream) || fresh(cs.stream))
      invariant cs.Content() == Before(after) + Before(todo) && pos == |Before(after)| && building >= 0
      invariant forall i | 0 <= i < |todo| :: NoNul(todo[i])
      invariant Midway(lk, name, cmds, after, todo, building, chars) && (building == 0 ==> chars == [])
      decreases |todo|
    {
      ghost var a, b := Before(after), Before(todo[1..]);
      assert cs.Content()[pos..] == Before(todo);
      var cmd := CommandAt(cs, pos, todo);
      assert cs.Content() == a + (cmd + [0]) + b;
      var chr := InsertCharVal(lk, cmd);
      var safe := false;
      if chr < 0x80 && IsPrint(chr) {
        safe := Vet(cs, pos, lk, todo);
      }
      if safe {
        ghost var after', chars';
        pos, building, after', chars' := Rewrite(cs, pos, cmd, name, chr as byte, building, lk, cmds, after, todo, chars);
        after, chars := after', chars';
      } else {
        MidwayOver(lk, name, cmds, after, todo, building, chars);
        BeforeOne(after, cmd);
        building := 0;
        after, chars := after + [cmd], [];
        pos := pos + |cmd| + 1;
      }
      todo := todo[1..];
    }
    NothingLeft(todo);
    MidwayEnds(lk, name, cmds, after, building, chars);
    MeantIsDenoted(lk, cmds);
  }

  // ---- Two macros that the optimiser changes

  lemma ArgBehind(name: seq<byte>, arg: seq<byte>)
    requires name != [] && forall k | 0 <= k < |name| :: !IsSpace(name[k])
    requires arg != [] && !IsSpace(arg[0])
    ensures var cmd := name + ([SPACE] + arg); SkipBlanks(cmd) == cmd && NameOf(cmd) == name && ArgOf(cmd) == arg
  {
    NameInFront(name, [SPACE] + arg);
    assert ([SPACE] + arg)[1..] == arg && SkipBlanks([SPACE] + arg) == SkipBlanks(arg) == arg;
  }

  /** A number with a plus sign: the command is refused when executed, but the optimiser makes an
      insertion of it. */
  lemma PlusSignMisread(lk: Lookup, charName: seq<byte>, name: seq<byte>) returns (cmd: Line)
    requires charName != [] && IsAlpha(charName[0]) && lk.isInsertChar(charName)
    requires forall k | 0 <= k < |charName| :: !IsSpace(charName[k])
    requires IsName(lk, name) && lk.safe(charName + ([SPACE] + [PLUS, 0x36, 0x35]))
    ensures cmd == charName + ([SPACE] + [PLUS, 0x36, 0x35])
    ensures Denote(lk, [cmd]) == [Other(cmd)] && Denote(lk, Optimized(lk, name, [cmd], [])) == [Insert(65)]
  {
    var arg: seq<byte> := [PLUS, 0x36, 0x35];
    cmd := charName + ([SPACE] + arg);
    ArgBehind(charName, arg);
    assert arg[1..] == [0x36, 0x35] && arg[1..][1..] == [0x35] && arg[1..][1..][1..] == [];
    assert Digits(arg[1..][1..], 10, 6) == Number(65, []);
    assert StrToLong(arg) == Number(65, []);
    assert !StartsNumber(arg) && Acts(lk, cmd) == [Other(cmd)];
    DenoteOne(lk, cmd);
    MisreadAs(lk, name, cmd, 65);
  }

  /** 2^32 + 65: no character has this number, but as an int it is 65. */
  lemma LargeNumberMisread(lk: Lookup, charName: seq<byte>, name: seq<byte>) returns (cmd: Line)
    requires charName != [] && IsAlpha(charName[0]) && lk.isInsertChar(charName)
    requires forall k | 0 <= k < |charName| :: !IsSpace(charName[k])
    requires IsName(lk, name) && lk.safe(charName + ([SPACE] + LargeNumber()))
    ensures cmd == charName + ([SPACE] + LargeNumber())
    ensures Denote(lk, [cmd]) == [Insert(0x1_0000_0041)] && Denote(lk, Optimized(lk, name, [cmd], [])) == [Insert(65)]
  {
    var arg := LargeNumber();
    cmd := charName + ([SPACE] + arg);
    ArgBehind(charName, arg);
    LargeNumberIs();
    DenoteOne(lk, cmd);
    MisreadAs(lk, name, cmd, 65);
  }

  /** The text 0x100000041. */
  function LargeNumber(): (s: seq<byte>) {
    [0x30, 0x78, 0x31, 0x30, 0x30, 0x30, 0x30, 0x30, 0x30, 0x34, 0x31]
  }

  lemma LargeNumberIs()
    ensures StrToLong(LargeNumber()) == Number(0x1_0000_0041, [])
  {
    hide Digits;
    LargeDigits();
  }

  lemma LargeDigits()
    ensures Digits(LargeNumber()[2..], 16, 0) == Number(0x1_0000_0041, [])
  {
    hide Digits;
    var s := LargeNumber();
    OneDigit(s, 2, 0);
    OneDigit(s, 3, 0x1);
    OneDigit(s, 4, 0x10);
    OneDigit(s, 5, 0x100);
    OneDigit(s, 6, 0x1000);
    OneDigit(s, 7, 0x1_0000);
    OneDigit(s, 8, 0x10_0000);
    OneDigit(s, 9, 0x100_0000);
    OneDigit(s, 10, 0x1000_0004);
    NoDigit(s[11..], 0x1_0000_0041);
  }

  lemma OneDigit(s: seq<byte>, k: nat, n: nat)
    requires k < |s| && DigitOf(s[k]) < 16
    ensures Digits(s[k..], 16, n) == Digits(s[k + 1..], 16, n * 16 + DigitOf(s[k]))
  {
    assert s[k..][1..] == s[k + 1..];
  }

  lemma NoDigit(s: seq<byte>, n: nat)
    requires s == []
    ensures Digits(s, 16, n) == Number(n, [])
  {
  }

  lemma MisreadAs(lk: Lookup, name: seq<byte>, cmd: Line, c: byte)
    requires IsName(lk, name) && lk.safe(cmd) && InsertCharVal(lk, cmd) == c as int && IsPrint(c as int)
    ensures Denote(lk, Optimized(lk, name, [cmd], [])) == [Insert(c as int)]
  {
    hide Acts, InsertCharVal, StringCommand, IsName;
    assert Merges(lk, [cmd]) && [cmd][1..] == [] && [] + [c] == [c];
    assert Optimized(lk, name, [cmd], []) == Optimized(lk, name, [], [c]) == [StringCommand(name, [c])];
    StringCommandActs(lk, name, [c]);
    OneInsert(c);
    DenoteOne(lk, StringCommand(name, [c]));
  }
}
