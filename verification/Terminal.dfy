/**
 Reading a line from the terminal (library/syscall/servers.c:86-107, the kernel's version), without the echo.
 */
module Terminal {
  import opened Wrappers

  const ENTER := '\r'
  const BACKSPACE := '\U{7F}'
  const NUL := '\0'

  /** A finished line, and whether it was entered (or else filled the buffer). */
  datatype Line = Line(text: string, entered: bool)

  /** The line being edited, after more keys; None if it is not finished. */
  function Edit(text: string, keys: string, room: int): Option<Line>
    decreases |keys|
  {
    if |text| >= room then Some(Line(text, false))
    else if keys == "" then None
    else if keys[0] == ENTER then Some(Line(text, true))
    else if keys[0] == BACKSPACE then Edit(if text == "" then "" else text[..|text| - 1], keys[1..], room)
    else Edit(text + [keys[0]], keys[1..], room)
  }

  /** Reads keys until the line is finished; None if the terminal has to wait for more. */
  method TermRead(keys: string, buf: array<char>, len: int) returns (r: Option<int>)
    requires 1 <= len <= buf.Length
    modifies buf
    ensures r.Some? <==> Edit("", keys, len - 1).Some?
    ensures match Edit("", keys, len - 1)
            case None => true
            case Some(line) =>
              && |line.text| < len && buf[..|line.text|] == line.text && buf[|line.text|] == '\0'
              && r == Some(if line.entered && line.text == "" then 0 else |line.text| + 1)
    ensures buf[len..] == old(buf[len..])
  {
    var i, next := 0, 0;
    while i < len - 1
      invariant 0 <= i <= len - 1 && 0 <= next <= |keys|
      invariant Edit("", keys, len - 1) == Edit(buf[..i], keys[next..], len - 1)
      invariant buf[len..] == old(buf[len..])
      decreases |keys| - next
    {
      if next == |keys| {
        return None;
      }
      var c := keys[next];
      next := next + 1;
      assert keys[next - 1..][1..] == keys[next..];
      ghost var text := buf[..i];
      buf[i] := c;
      assert buf[..i] == text;
      if c == ENTER {
        buf[i] := NUL;
        return Some(if i > 0 then i + 1 else 0);
      } else if c == BACKSPACE {
        assert i > 0 ==> buf[..i - 1] == text[..i - 1];
        i := if i > 0 then i - 2 else i - 1;
      } else {
        assert buf[..i + 1] == text + [c];
      }
      i := i + 1;
    }
    buf[len - 1] := NUL;
    r := Some(len);
  }

  /** A key that is erased again leaves no trace, unless it filled the buffer. */
  lemma TypeAndErase(text: string, c: char, keys: string, room: int)
    requires c != '\r' && c != '\U{7F}' && |text| + 1 < room
    ensures Edit(text, [c, '\U{7F}'] + keys, room) == Edit(text, keys, room)
  {
    assert ([c, BACKSPACE] + keys)[1..] == [BACKSPACE] + keys;
    assert ([BACKSPACE] + keys)[1..] == keys;
    assert (text + [c])[..|text|] == text;
  }

  /** On an empty line there is nothing to erase. */
  lemma EraseNothing(keys: string, room: int)
    requires room > 0
    ensures Edit("", ['\U{7F}'] + keys, room) == Edit("", keys, room)
  {
    assert (['\U{7F}'] + keys)[1..] == keys;
  }

  /** A line that fills the buffer ends there, whatever else is typed. */
  lemma FullLine(text: string, keys: string, room: int)
    requires |text| == room
    ensures Edit(text, keys, room) == Some(Line(text, false))
  {
  }

  /** Without Enter, a line that is not full waits for more. */
  lemma {:induction false} Unfinished(text: string, typed: string, room: int)
    requires |text| + |typed| < room && '\r' !in typed && '\U{7F}' !in typed
    ensures Edit(text, typed, room) == None
    decreases |typed|
  {
    if typed != "" {
      Unfinished(text + [typed[0]], typed[1..], room);
    }
  }

  /** Without Enter and Backspace, the line is what was typed. */
  lemma {:induction false} PlainLine(text: string, typed: string, keys: string, room: int)
    requires |text| + |typed| < room && '\r' !in typed && '\U{7F}' !in typed
    ensures Edit(text, typed + ['\r'] + keys, room) == Some(Line(text + typed, true))
    decreases |typed|
  {
    if typed == "" {
      assert text + typed == text && (typed + [ENTER] + keys)[0] == ENTER;
    } else {
      assert (typed + [ENTER] + keys)[0] == typed[0];
      assert (typed + [ENTER] + keys)[1..] == typed[1..] + [ENTER] + keys;
      PlainLine(text + [typed[0]], typed[1..], keys, room);
      assert text + [typed[0]] + typed[1..] == text + typed;
    }
  }
}
