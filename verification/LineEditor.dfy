/** The shell's line editor and the command loop around it, app/debug_shell.c. */
module LineEditor {
  import opened Bits
  import opened Wrappers
  import opened CStrings

  const CR: Byte := 0x0d
  const LF: Byte := 0x0a
  const BACKSPACE: Byte := 0x08
  const DEL: Byte := 0x7f

  predicate IsErase(k: Byte) { k == BACKSPACE || k == DEL }

  // ---- a key stream as a stack of characters ----

  datatype Session =
    | Line(text: seq<Byte>, rest: seq<Byte>)   // a carriage return came; `rest` is not read
    | Full(text: seq<Byte>)
    | Underflow                                // an erase on the empty line
    | Blocked(text: seq<Byte>)                 // no more keys: the read waits

  function Edit(text: seq<Byte>, keys: seq<Byte>, maxlen: nat): Session
    decreases |keys|
  {
    if |text| + 1 >= maxlen then Full(text)
    else if keys == [] then Blocked(text)
    else if keys[0] == CR then Line(text, keys[1..])
    else if !IsErase(keys[0]) then Edit(text + [keys[0]], keys[1..], maxlen)
    else if text == [] then Underflow
    else Edit(text[..|text| - 1], keys[1..], maxlen)
  }

  /** The keys leave a line open: no return, nothing erased that was not typed, never full. */
  predicate Open(height: nat, keys: seq<Byte>, maxlen: nat)
    decreases |keys|
  {
    && height + 1 < maxlen
    && (keys != [] ==>
        && keys[0] != CR
        && (IsErase(keys[0]) ==> height > 0)
        && Open(if IsErase(keys[0]) then height - 1 else height + 1, keys[1..], maxlen))
  }

  /** How many characters an open line holds: typed minus erased. */
  function Height(height: int, keys: seq<Byte>): int
    decreases |keys|
  {
    if keys == [] then height
    else Height(if IsErase(keys[0]) then height - 1 else height + 1, keys[1..])
  }

  /** What the keys leave of the line. */
  function Interpret(text: seq<Byte>, keys: seq<Byte>): seq<Byte>
    decreases |keys|
  {
    if keys == [] then text
    else if !IsErase(keys[0]) then Interpret(text + [keys[0]], keys[1..])
    else Interpret(if text == [] then [] else text[..|text| - 1], keys[1..])
  }

  /** Typing without erasing gives what was typed. */
  lemma {:induction false} InterpretTyped(text: seq<Byte>, keys: seq<Byte>)
    requires 0x08 !in keys && 0x7f !in keys
    ensures Interpret(text, keys) == text + keys
    decreases |keys|
  {
    if keys == [] {
      assert text + keys == text;
    } else {
      InterpretTyped(text + [keys[0]], keys[1..]);
      assert text + [keys[0]] + keys[1..] == text + keys;
    }
  }

  /** A character and the erase right after it leave no trace. */
  lemma {:induction false} EraseCancels(text: seq<Byte>, before: seq<Byte>, x: Byte, erase: Byte, after: seq<Byte>)
    requires x != 0x08 && x != 0x7f && (erase == 0x08 || erase == 0x7f)
    ensures Interpret(text, before + [x, erase] + after) == Interpret(text, before + after)
    decreases |before|
  {
    var keys := before + [x, erase] + after;
    if before == [] {
      assert keys[1..] == [erase] + after && keys[1..][1..] == after;
      assert (text + [x])[..|text|] == text && before + after == after;
    } else {
      assert keys[1..] == before[1..] + [x, erase] + after;
      assert (before + after)[1..] == before[1..] + after;
      EraseCancels(if !IsErase(before[0]) then text + [before[0]] else if text == [] then [] else text[..|text| - 1],
                   before[1..], x, erase, after);
    }
  }

  lemma {:induction false} OpenEdits(text: seq<Byte>, keys: seq<Byte>, more: seq<Byte>, maxlen: nat)
    requires Open(|text|, keys, maxlen)
    ensures Edit(text, keys + more, maxlen) == Edit(Interpret(text, keys), more, maxlen)
    ensures |Interpret(text, keys)| == Height(|text|, keys) && Height(|text|, keys) + 1 < maxlen
    decreases |keys|
  {
    if keys == [] {
      assert keys + more == more;
    } else {
      assert (keys + more)[1..] == keys[1..] + more;
      OpenEdits(if IsErase(keys[0]) then text[..|text| - 1] else text + [keys[0]], keys[1..], more, maxlen);
    }
  }

  /** A line that stays open until its carriage return is the stack's contents. */
  lemma LineIsInterpretation(keys: seq<Byte>, rest: seq<Byte>, maxlen: nat)
    requires Open(0, keys, maxlen)
    ensures Edit([], keys + [0x0d] + rest, maxlen) == Line(Interpret([], keys), rest)
  {
    OpenEdits([], keys, [CR] + rest, maxlen);
    assert keys + [CR] + rest == keys + ([CR] + rest);
    assert ([CR] + rest)[1..] == rest;
  }

  /** What each key does to a line with room: a return ends it, 0x08 and 0x7f take its last
      character or underflow, and anything else is added. */
  lemma EachKey(text: seq<Byte>, key: Byte, rest: seq<Byte>, maxlen: nat)
    requires |text| + 1 < maxlen
    ensures var s := Edit(text, [key] + rest, maxlen);
      if key == 0x0d then s == Line(text, rest)
      else if key == 0x08 || key == 0x7f then
        if text == [] then s.Underflow? else s == Edit(text[..|text| - 1], rest, maxlen)
      else s == Edit(text + [key], rest, maxlen)
    ensures key != 0x0d ==> (Open(|text|, [key] + rest, maxlen) <==>
      if key == 0x08 || key == 0x7f then text != [] && Open(|text| - 1, rest, maxlen) else Open(|text| + 1, rest, maxlen))
  {
    assert ([key] + rest)[1..] == rest;
  }

  /** A line that has reached one less than the limit takes no more keys. */
  lemma FullLine(text: seq<Byte>, keys: seq<Byte>, maxlen: nat)
    requires |text| + 1 >= maxlen
    ensures Edit(text, keys, maxlen) == Full(text)
  {
  }

  /** The editor runs off the front of its buffer exactly when some prefix erases more than it typed. */
  lemma {:induction false} UnderflowIff(text: seq<Byte>, keys: seq<Byte>, maxlen: nat)
    ensures Edit(text, keys, maxlen).Underflow? <==>
      exists n :: 0 <= n < |keys| && Erases(keys, n) && Open(|text|, keys[..n], maxlen) && Height(|text|, keys[..n]) == 0
    decreases |keys|
  {
    if Edit(text, keys, maxlen).Underflow? {
      var n := UnderflowPoint(text, keys, maxlen);
    }
    if n :| 0 <= n < |keys| && Erases(keys, n) && Open(|text|, keys[..n], maxlen) && Height(|text|, keys[..n]) == 0 {
      OpenEdits(text, keys[..n], keys[n..], maxlen);
      assert keys[..n] + keys[n..] == keys;
    }
  }

  predicate Erases(keys: seq<Byte>, n: nat)
    requires n < |keys|
  {
    IsErase(keys[n])
  }

  lemma {:induction false} UnderflowPoint(text: seq<Byte>, keys: seq<Byte>, maxlen: nat) returns (n: nat)
    requires Edit(text, keys, maxlen).Underflow?
    ensures n < |keys| && Erases(keys, n) && Open(|text|, keys[..n], maxlen) && Height(|text|, keys[..n]) == 0
    decreases |keys|
  {
    if IsErase(keys[0]) && text == [] {
      n := 0;
    } else {
      var t := if IsErase(keys[0]) then text[..|text| - 1] else text + [keys[0]];
      var m := UnderflowPoint(t, keys[1..], maxlen);
      n := m + 1;
      assert keys[..n][1..] == keys[1..][..m] && keys[..n][0] == keys[0];
    }
  }

  // ---- the buffer ----

  /** What cmd_term_get returns, or that it still waits for a key. */
  datatype Got = Returned(len: nat) | Waiting(typed: nat)

  /** Reads keys until a carriage return, a full buffer, or an erase too many, after which the
      32-bit index has wrapped to 4294967295. */
  method CmdTermGet(buf: array<Byte>, maxlen: nat, keys: seq<Byte>) returns (got: Got, ghost s: Session)
    requires 0 < maxlen < buf.Length && maxlen < 0x8000_0000
    modifies buf
    ensures s == Edit([], keys, maxlen)
    ensures match s
      case Line(t, _) =>
        got == Returned(|t| + 2) && |t| + 2 <= maxlen && buf[..|t| + 3] == t + [0x0d, 0x0a, 0x00]
      case Full(t) => got == Returned(maxlen - 1) && |t| == maxlen - 1 && buf[..|t|] == t
      case Underflow => got == Returned(0xffff_ffff)
      case Blocked(t) => got == Waiting(|t|) && |t| < maxlen && buf[..|t|] == t
    ensures forall k :: maxlen < k < buf.Length ==> buf[k] == old(buf[k])
  {
    var j := 0;
    var next := 0;
    s := Edit([], keys, maxlen);
    ghost var text: seq<Byte> := [];
    while true
      invariant next <= |keys| && (j == 0xffff_ffff || j < maxlen)
      invariant if j == 0xffff_ffff then s.Underflow?
                else |text| == j && buf[..j] == text && s == Edit(text, keys[next..], maxlen)
      invariant forall k :: maxlen < k < buf.Length ==> buf[k] == old(buf[k])
      decreases |keys| - next + if j == 0xffff_ffff then 0 else 1
    {
      if j >= maxlen - 1 { return Returned(j), s; }
      if next == |keys| { return Waiting(j), s; }
      var rxbyte := keys[next];
      assert keys[next..][1..] == keys[next + 1..];
      next := next + 1;
      if rxbyte == CR {
        buf[j] := rxbyte;
        buf[j + 1] := LF;
        buf[j + 2] := NUL;
        assert buf[..j + 3] == text + [CR, LF, NUL];
        return Returned(j + 2), s;
      } else if IsErase(rxbyte) {
        if j == 0 {
          j := 0xffff_ffff;
        } else {
          j := j - 1;
          text := text[..j];
        }
      } else {
        buf[j] := rxbyte;
        text := text + [rxbyte];
        j := j + 1;
      }
    }
  }

  const LINE_SIZE := 1024

  /** One turn of the shell: read a line and strip its last two bytes. None while the read waits,
      and when an erase too many has sent the index out of the buffer. */
  method ReadCommand(line: array<Byte>, keys: seq<Byte>) returns (ready: bool, ghost s: Session)
    requires line.Length == LINE_SIZE
    modifies line
    ensures s == Edit([], keys, 1023)
    ensures ready == (s.Line? || s.Full?)
    ensures s.Line? ==> |s.text| + 2 <= 1023 && line[..|s.text| + 1] == s.text + [NUL]
    ensures s.Full? ==> |s.text| == 1022 && line[..1021] == s.text[..1020] + [NUL]
  {
    var got;
    got, s := CmdTermGet(line, 1023, keys);
    match got {
      case Waiting(_) => ready := false;
      case Returned(len) =>
        ready := len - 2 < LINE_SIZE;
        if ready {
          ghost var before := line[..];
          line[len - 2] := NUL;
          assert line[..] == before[len - 2 := NUL];
          if s.Line? {
            assert before[..|s.text|] == before[..|s.text| + 3][..|s.text|] == s.text;
          } else {
            assert before[..1020] == before[..1022][..1020];
          }
        }
    }
  }

  /** What reaches the tokenizer is the edited line: its length, and every one of its bytes. */
  lemma EditedLineIsParsed(memory: seq<Byte>, text: seq<Byte>)
    requires |text| + 1 < |memory| && memory[..|text| + 1] == text + [NUL] && NUL !in text
    ensures Terminated(memory, 0) && Text(memory, 0) == text
  {
    assert memory[0..0 + |text|] == memory[..|text| + 1][..|text|] == text;
    assert memory[|text|] == memory[..|text| + 1][|text|];
    TextAt(memory, 0, text);
  }
}
