/** From the keyboard to the arguments of a command: the loop of vDebugShell in app/debug_shell.c. */
module Shell {
  import opened Bits
  import opened CStrings
  import opened Wrappers
  import opened LineEditor
  import opened Tokenizer

  const MAXLEN := LINE_SIZE - 1

  /** A line typed, corrected on the way and ended by a return reaches the command as its arguments:
      all of them, each whole and terminated, exactly when none after the first is a non-empty
      quoted one and the line does not end in a word at its 127th character. */
  method Turn(line: array<Byte>, argv: array<Option<nat>>, typed: seq<Byte>, rest: seq<Byte>,
              ghost items: seq<Spaced>, ghost tail: seq<Byte>) returns (ok: bool, argi: nat)
    requires line.Length == LINE_SIZE && argv.Length == MAXARGS
    requires Open(0, typed, MAXLEN) && Interpret([], typed) == Render(items, tail)
    requires GoodLine(items, tail) && |items| <= MAXARGS
    modifies line, argv
    ensures ok <==> forall k :: 1 <= k < |items| ==> !Loaded(items[k])
    ensures ok && !Clipped(items, tail) ==> Delivered(line[..], argv[..], argi, items)
    ensures ok && Clipped(items, tail) ==> Delivered(line[..], argv[..], argi, CutItems(items, tail))
  {
    LineIsInterpretation(typed, rest, MAXLEN);
    hide Edit, Open, Interpret, Render, GoodLine, Tokenize, Recovered, Clipped, CutItems, Delivered, Loaded;
    var ready, s := ReadCommand(line, typed + [CR] + rest);
    ghost var m := line[..];
    LineOutcome(m, items, tail);
    ghost var o := Tokenize(m, AsWritten);
    ok, argi := CmdParse(line, argv);
    if ok {
      ghost var found := if Clipped(items, tail) then CutItems(items, tail) else items;
      AllDelivered(o, line[..], argv[..], argi, found);
    }
  }

  /** What the tokenizer makes of the line that was read. */
  lemma LineOutcome(m: seq<Byte>, items: seq<Spaced>, tail: seq<Byte>)
    requires GoodLine(items, tail) && |Render(items, tail)| + 1 < |m|
    requires m[..|Render(items, tail)| + 1] == Render(items, tail) + [NUL]
    ensures Terminated(m, 0) && StrEnd(m, 0) + 1 < |m|
    ensures var o := Tokenize(m, AsWritten);
      && (o.Parsed? <==> forall k :: 1 <= k < |items| ==> !Loaded(items[k])) && |o.args| <= |items|
      && (o.Parsed? ==> Recovered(o, if Clipped(items, tail) then CutItems(items, tail) else items))
  {
    hide Render, GoodLine, Tokenize, Clipped, CutItems, HoldsText, Loaded;
    var after := m[|Render(items, tail)| + 1..];
    assert m == Render(items, tail) + [NUL] + after;
    RoundTrip(items, tail, after, false);
    CutIsShorter(items, tail);
  }

  lemma AllDelivered(o: Outcome, line: seq<Byte>, argv: seq<Option<nat>>, argi: nat, items: seq<Spaced>)
    requires Recovered(o, items) && line == o.line && argi == |o.args| <= |argv|
    requires forall k :: 0 <= k < |argv| ==> argv[k] == if k < argi then Some(o.args[k]) else None
    ensures Delivered(line, argv, argi, items)
  {
    hide HoldsText;
  }

  /** argv names every argument, and null after the last. */
  ghost predicate Delivered(line: seq<Byte>, argv: seq<Option<nat>>, argi: nat, items: seq<Spaced>)
  {
    && argi == |items| <= |argv|
    && (forall k :: 0 <= k < argi ==> argv[k].Some? && HoldsText(line, argv[k].value, items[k].item.text))
    && (forall k :: argi <= k < |argv| ==> argv[k].None?)
  }

  lemma CutIsShorter(items: seq<Spaced>, tail: seq<Byte>)
    ensures |CutItems(items, tail)| <= |items|
  {
  }
}
