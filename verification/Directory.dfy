/**
 Directories as text: the lookup (library/syscall/servers.c:33-44) against the entries that mkfs prints
 (tools/mkfs.c:126). */
module Directory {

  // ---------------------------------------------------------------- numbers in decimal

  predicate IsDigit(c: char) { '0' <= c <= '9' }

  predicate IsSpace(c: char) { c == ' ' || '\t' <= c <= '\r' }

  function Digit(d: int): char
    requires 0 <= d < 10
  {
    '0' + d as char
  }

  function Decimal(n: nat): (s: string)
    ensures |s| > 0 && forall i :: 0 <= i < |s| ==> IsDigit(s[i])
  {
    (if n < 10 then "" else Decimal(n / 10)) + [Digit(n % 10)]
  }

  /** The value of the digits at the start of a text, after what has been read so far. */
  function Digits(text: string, soFar: int): int {
    if text == "" || !IsDigit(text[0]) then soFar
    else Digits(text[1..], 10 * soFar + (text[0] as int - '0' as int))
  }

  /** atoi: blanks, a sign, digits. */
  function Atoi(text: string): int {
    if text == "" then 0
    else if IsSpace(text[0]) then Atoi(text[1..])
    else if text[0] == '-' then -Digits(text[1..], 0)
    else if text[0] == '+' then Digits(text[1..], 0)
    else Digits(text, 0)
  }

  lemma {:induction false} DigitsOfDecimal(n: nat, after: string)
    requires after == "" || !IsDigit(after[0])
    ensures Digits(Decimal(n) + after, 0) == n
  {
    if n < 10 {
      assert (Decimal(n) + after)[1..] == after;
    } else {
      DigitsAppend(Decimal(n / 10), [Digit(n % 10)] + after, 0);
      assert Decimal(n) + after == Decimal(n / 10) + ([Digit(n % 10)] + after);
      DigitsOfDecimal(n / 10, "");
      assert Decimal(n / 10) + "" == Decimal(n / 10);
      assert ([Digit(n % 10)] + after)[1..] == after;
    }
  }

  lemma {:induction false} DigitsAppend(ds: string, after: string, soFar: int)
    requires forall i :: 0 <= i < |ds| ==> IsDigit(ds[i])
    ensures Digits(ds + after, soFar) == Digits(after, Digits(ds, soFar))
  {
    if ds == "" {
      assert ds + after == after;
    } else {
      assert (ds + after)[1..] == ds[1..] + after;
      DigitsAppend(ds[1..], after, 10 * soFar + (ds[0] as int - '0' as int));
    }
  }

  // ---------------------------------------------------------------- the printer

  datatype Entry = Entry(name: string, ino: nat)

  function Blanks(n: int): string {
    if n <= 0 then "" else " " + Blanks(n - 1)
  }

  /** "%s%4d " */
  function PrintEntry(e: Entry): string {
    e.name + Blanks(4 - |Decimal(e.ino)|) + Decimal(e.ino) + " "
  }

  function Print(entries: seq<Entry>): string {
    if entries == [] then "" else PrintEntry(entries[0]) + Print(entries[1..])
  }

  predicate Word(s: string) { s != "" && ' ' !in s }

  /** An entry is its name, its number right-aligned in four columns (or more, if it needs them), and a blank. */
  lemma PrintedColumns(e: Entry)
    ensures var p, k, d := PrintEntry(e), |e.name|, |Decimal(e.ino)|;
            && |p| == k + (if d < 4 then 4 else d) + 1 && p[..k] == e.name
            && (forall i :: k <= i < |p| - 1 - d ==> p[i] == ' ') && p[|p| - 1 - d..|p| - 1] == Decimal(e.ino)
            && p[|p| - 1] == ' '
  {
    BlanksAre(4 - |Decimal(e.ino)|);
    var p, k, d := PrintEntry(e), |e.name|, |Decimal(e.ino)|;
    var b := Blanks(4 - d);
    assert p == e.name + (b + (Decimal(e.ino) + " "));
    assert forall i :: k <= i < |p| - 1 - d ==> p[i] == b[i - k];
  }

  lemma {:induction false} BlanksAre(n: int)
    ensures |Blanks(n)| == (if n <= 0 then 0 else n) && forall i :: 0 <= i < |Blanks(n)| ==> Blanks(n)[i] == ' '
  {
    if n > 0 {
      BlanksAre(n - 1);
    }
  }

  /** The digits are decimal ones, the highest first. */
  lemma DecimalExample()
    ensures Decimal(907) == "907" && Decimal(0) == "0"
  {
    assert Decimal(9) == "9" && Decimal(90) == "90";
  }

  /** A sign and leading blanks count; what follows the digits does not. */
  lemma AtoiReads(n: nat, after: string)
    requires after == "" || !IsDigit(after[0])
    ensures Atoi(Decimal(n) + after) == n && Atoi("-" + (Decimal(n) + after)) == 0 - n
    ensures Atoi("+" + (Decimal(n) + after)) == n
  {
    var number := Decimal(n) + after;
    DigitsOfDecimal(n, after);
    assert IsDigit(number[0]);
    assert ("-" + number)[1..] == number && ("+" + number)[1..] == number;
  }

  lemma AtoiSkips(blank: char, text: string)
    requires blank == ' ' || blank == '\t' || blank == '\n' || blank == '\r'
    ensures Atoi([blank] + text) == Atoi(text)
  {
    assert ([blank] + text)[1..] == text;
  }

  // ---------------------------------------------------------------- the lookup

  /** The name is at the start of the text, followed by a blank. */
  predicate NameAt(text: string, name: string) {
    |name| < |text| && name <= text && text[|name|] == ' '
  }

  /** What a lookup that has reached this suffix of the text returns; `atWord` says that a word may start here. */
  function Scan(text: string, name: string, atWord: bool): int {
    if |text| <= |name| then -1
    else if atWord && NameAt(text, name) then Atoi(text[|name|..])
    else Scan(text[1..], name, text[0] == ' ')
  }

  /** dir_lookup, on the text of the first block up to its terminator.  The code's bound is strlen(buf) - namelen in
      unsigned arithmetic, so the text must be at least as long as the name. */
  method DirLookup(text: string, name: string) returns (ino: int)
    requires |name| <= |text|
    ensures ino == Scan(text, name, true)
  {
    var namelen := |name|;
    for i := 0 to |text| - namelen
      invariant Scan(text, name, true) == Scan(text[i..], name, i == 0 || text[i - 1] == ' ')
    {
      assert text[i..][1..] == text[i + 1..];
      if text[i..i + namelen] == name && text[i + namelen] == ' ' && (i == 0 || text[i - 1] == ' ') {
        assert text[i..][namelen..] == text[i + namelen..];
        assert text[i..][..namelen] == name;
        return Atoi(text[i + namelen..]);
      }
      assert NameAt(text[i..], name) ==> text[i..i + namelen] == name;
    }
    ino := -1;
  }

  // ---------------------------------------------------------------- the round trip

  /** What a directory means: the number of the first entry of that name. */
  function Lookup(entries: seq<Entry>, name: string): int {
    if entries == [] then -1
    else if entries[0].name == name then entries[0].ino
    else Lookup(entries[1..], name)
  }

  lemma {:induction false} ScanInsideWord(w: string, name: string, rest: string)
    requires ' ' !in w
    ensures Scan(w + " " + rest, name, false) == Scan(" " + rest, name, false)
  {
    if w == "" {
      assert w + " " + rest == " " + rest;
    } else {
      assert (w + " " + rest)[1..] == w[1..] + " " + rest;
      ScanInsideWord(w[1..], name, rest);
    }
  }

  /** A word is found if it is the name, and passed over otherwise. */
  lemma ScanWord(w: string, name: string, rest: string)
    requires Word(w) && Word(name)
    ensures Scan(w + " " + rest, name, true) == if w == name then Atoi(" " + rest) else Scan(rest, name, true)
  {
    var text := w + " " + rest;
    assert text[|w|] == ' ' && text[|w|..] == " " + rest;
    assert text[1..] == w[1..] + " " + rest;
    if w != name {
      assert text[..|w|] == w;
      if |name| < |w| {
        assert text[|name|] == w[|name|];
      } else if |name| > |w| {
        assert name[|w|] in name;
      }
      assert !NameAt(text, name);
      ScanInsideWord(w[1..], name, rest);
      ScanBlanks(1, name, rest);
    }
  }

  lemma {:induction false} ScanBlanks(n: int, name: string, rest: string)
    requires Word(name)
    ensures Scan(Blanks(n) + rest, name, true) == Scan(rest, name, true)
    ensures n == 1 ==> Blanks(n) == " " && Scan(" " + rest, name, false) == Scan(rest, name, true)
  {
    if n <= 0 {
      assert Blanks(n) + rest == rest;
    } else {
      assert Blanks(n) == " " + Blanks(n - 1);
      var text := Blanks(n) + rest;
      assert text[0] == ' ' && text[1..] == Blanks(n - 1) + rest;
      assert name[0] in name && name[0] != text[0];
      ScanBlanks(n - 1, name, rest);
      if n == 1 {
        assert Blanks(0) + rest == rest && text == " " + rest;
      }
    }
  }

  lemma {:induction false} AtoiBlanks(n: int, rest: string)
    ensures Atoi(Blanks(n) + rest) == Atoi(rest)
  {
    if n <= 0 {
      assert Blanks(n) + rest == rest;
    } else {
      assert (Blanks(n) + rest)[0] == ' ' && (Blanks(n) + rest)[1..] == Blanks(n - 1) + rest;
      AtoiBlanks(n - 1, rest);
    }
  }

  /** A number is padded by at least one blank exactly when it has at most three digits. */
  lemma DecimalLength(n: nat)
    ensures |Decimal(n)| < 4 <==> n < 1000
  {
    var tens, hundreds := n / 10, n / 10 / 10;
    assert n < 1000 <==> hundreds < 10;
    assert hundreds >= 10 ==> |Decimal(hundreds)| >= 2;
    assert tens >= 10 ==> |Decimal(tens)| == |Decimal(hundreds)| + 1;
    assert n >= 10 ==> |Decimal(n)| == |Decimal(tens)| + 1;
  }

  lemma AtoiOfNumber(n: nat, blanks: int, rest: string)
    ensures Atoi(Blanks(blanks) + Decimal(n) + " " + rest) == n
  {
    var text := Decimal(n) + (" " + rest);
    assert Blanks(blanks) + Decimal(n) + " " + rest == Blanks(blanks) + text;
    AtoiBlanks(blanks, text);
    assert text[0] == Decimal(n)[0];
    DigitsOfDecimal(n, " " + rest);
  }

  /** What an entry prints besides its name: its number, or from 1000 on its name and number in one word. */
  function OtherWord(e: Entry): string {
    if e.ino < 1000 then Decimal(e.ino) else e.name + Decimal(e.ino)
  }

  lemma ShortEntryIsTwoWords(e: Entry, rest: string)
    requires e.ino < 1000
    ensures var n := 4 - |Decimal(e.ino)|;
            && n > 0 && Blanks(n) == " " + Blanks(n - 1)
            && PrintEntry(e) + rest == e.name + " " + (Blanks(n - 1) + (Decimal(e.ino) + " " + rest))
  {
    DecimalLength(e.ino);
  }

  lemma ShortEntryFound(e: Entry, rest: string)
    requires Word(e.name) && e.ino < 1000
    ensures Scan(PrintEntry(e) + rest, e.name, true) == e.ino
  {
    ShortEntryIsTwoWords(e, rest);
    var n := 4 - |Decimal(e.ino)|;
    var afterName := Blanks(n - 1) + (Decimal(e.ino) + " " + rest);
    ScanWord(e.name, e.name, afterName);
    AtoiOfNumber(e.ino, n, rest);
    assert " " + afterName == Blanks(n) + Decimal(e.ino) + " " + rest;
  }

  lemma ShortEntryPassed(e: Entry, name: string, rest: string)
    requires Word(e.name) && Word(name) && e.ino < 1000 && e.name != name
    ensures Scan(PrintEntry(e) + rest, name, true) == if Decimal(e.ino) == name then Atoi(" " + rest)
            else Scan(rest, name, true)
  {
    hide Scan, PrintEntry, Decimal, Atoi, Blanks;
    ShortEntryIsTwoWords(e, rest);
    var n, number := 4 - |Decimal(e.ino)|, Decimal(e.ino) + " " + rest;
    ScanWord(e.name, name, Blanks(n - 1) + number);
    ScanBlanks(n - 1, name, number);
    ScanWord(Decimal(e.ino), name, rest);
  }

  /** A printed entry is two words up to 999, and one from 1000 on; each of them is found if it is the name. */
  lemma ScanEntry(e: Entry, name: string, rest: string)
    requires Word(e.name) && Word(name)
    ensures Scan(PrintEntry(e) + rest, name, true)
            == if e.ino < 1000 && e.name == name then e.ino
               else if OtherWord(e) == name then Atoi(" " + rest)
               else Scan(rest, name, true)
  {
    if e.ino < 1000 {
      if e.name == name {
        ShortEntryFound(e, rest);
      } else {
        ShortEntryPassed(e, name, rest);
      }
    } else {
      DecimalLength(e.ino);
      assert PrintEntry(e) + rest == OtherWord(e) + " " + rest;
      ScanWord(OtherWord(e), name, rest);
    }
  }

  /** The first printed word that equals the name: the name of entry k, or another word that entry k prints. */
  datatype Hit = Nothing | Own(k: int) | Stray(k: int)

  function FirstHit(entries: seq<Entry>, name: string, from: nat): (hit: Hit)
    requires from <= |entries|
    ensures hit.Nothing? || from <= hit.k < |entries|
    decreases |entries| - from
  {
    if from == |entries| then Nothing
    else if entries[from].ino < 1000 && entries[from].name == name then Own(from)
    else if OtherWord(entries[from]) == name then Stray(from)
    else FirstHit(entries, name, from + 1)
  }

  /** The hit is the first entry whose own name, or other word, is the name. */
  lemma {:induction false} FirstHitIs(entries: seq<Entry>, name: string, from: nat)
    requires from <= |entries|
    ensures var hit := FirstHit(entries, name, from);
            && (forall i :: from <= i < |entries| && (hit.Nothing? || i < hit.k) ==> NoWordIs(entries[i], name))
            && (hit.Own? ==> entries[hit.k].ino < 1000 && entries[hit.k].name == name)
            && (hit.Stray? ==> !(entries[hit.k].ino < 1000 && entries[hit.k].name == name)
                               && OtherWord(entries[hit.k]) == name)
    decreases |entries| - from
  {
    if from < |entries| {
      FirstHitIs(entries, name, from + 1);
    }
  }

  /** Neither word that the entry prints is the name: its name and its number, or the two joined from 1000 on. */
  predicate NoWordIs(e: Entry, name: string) {
    if e.ino < 1000 then e.name != name && Decimal(e.ino) != name else e.name + Decimal(e.ino) != name
  }

  /** The number that follows a hit. */
  function NumberAfter(entries: seq<Entry>, hit: Hit): int
    requires hit.Nothing? || 0 <= hit.k < |entries|
  {
    match hit
    case Nothing => -1
    case Own(k) => entries[k].ino
    case Stray(k) => AfterEntry(entries, k)
  }

  /** The number that what follows entry k begins with, or 0. */
  function AfterEntry(entries: seq<Entry>, k: int): int
    requires 0 <= k < |entries|
  {
    Atoi(" " + Print(entries[k + 1..]))
  }

  /** A lookup in a printed directory stops at the first printed word that equals the name, and gives the number that
      follows it: for any numbers and any names without blanks. */
  lemma {:induction false} ScanPrinted(entries: seq<Entry>, name: string, from: nat)
    requires Word(name) && from <= |entries| && forall i :: 0 <= i < |entries| ==> Word(entries[i].name)
    ensures Scan(Print(entries[from..]), name, true) == NumberAfter(entries, FirstHit(entries, name, from))
    decreases |entries| - from
  {
    if from < |entries| {
      var rest := entries[from + 1..];
      assert entries[from..] == [entries[from]] + rest;
      ScanEntry(entries[from], name, Print(rest));
      ScanPrinted(entries, name, from + 1);
    }
  }

  lemma {:induction false} LookupFrom(entries: seq<Entry>, name: string, from: nat, m: int)
    requires from <= |entries| && forall i :: from <= i < m && i < |entries| ==> entries[i].name != name
    ensures from <= m < |entries| && entries[m].name == name ==> Lookup(entries[from..], name) == entries[m].ino
    ensures m >= |entries| ==> Lookup(entries[from..], name) == -1
    decreases |entries| - from
  {
    if from < |entries| && from < m {
      assert entries[from..][1..] == entries[from + 1..];
      LookupFrom(entries, name, from + 1, m);
    }
  }

  /** An entry with the name, and a number that a lookup can give, is a hit unless there is one before it. */
  lemma {:induction false} HitBy(entries: seq<Entry>, name: string, from: nat, i: int)
    requires from <= i < |entries| && entries[i].name == name && entries[i].ino < 1000
    ensures !FirstHit(entries, name, from).Nothing? && FirstHit(entries, name, from).k <= i
    decreases |entries| - from
  {
    var hit := FirstHit(entries, name, from);
    if hit != Own(from) && hit != Stray(from) {
      assert hit == FirstHit(entries, name, from + 1);
      HitBy(entries, name, from + 1, i);
    }
  }

  /** No entry before a hit has the name and a number that a lookup can give. */
  lemma BeforeHit(entries: seq<Entry>, name: string, from: nat, i: int)
    requires from <= i < |entries| && entries[i].name == name
    requires FirstHit(entries, name, from).Nothing? || i < FirstHit(entries, name, from).k
    ensures entries[i].ino >= 1000
  {
    if entries[i].ino < 1000 {
      HitBy(entries, name, from, i);
    }
  }

  lemma {:induction false} HitIsName(entries: seq<Entry>, name: string, from: nat)
    requires from <= |entries|
    ensures var hit := FirstHit(entries, name, from);
            hit.Own? ==> entries[hit.k].name == name && entries[hit.k].ino < 1000
    decreases |entries| - from
  {
    if from < |entries| {
      HitIsName(entries, name, from + 1);
    }
  }

  /** Whether the lookup is right can be told from the entries: by the first printed word that equals the name. */
  ghost predicate LooksUpRight(entries: seq<Entry>, name: string) {
    match FirstHit(entries, name, 0)
    case Nothing => forall i :: 0 <= i < |entries| ==> entries[i].name != name
    case Own(k) => forall i :: 0 <= i < k ==> entries[i].name != name
    case Stray(k) => Lookup(entries, name) == AfterEntry(entries, k)
  }

  /** Looking a name up in any printed directory gives the number of the first entry of that name, or -1, exactly if the
      first printed word that equals the name is the name of the first entry called so, or there is neither such a word
      nor such an entry; or if a word that is not a name happens to stand before the number that is looked for. */
  lemma RoundTrip(entries: seq<Entry>, name: string)
    requires Word(name) && forall i :: 0 <= i < |entries| ==> Word(entries[i].name)
    ensures Scan(Print(entries), name, true) == Lookup(entries, name) <==> LooksUpRight(entries, name)
  {
    ScanPrinted(entries, name, 0);
    assert entries[0..] == entries;
    HitIsRight(entries, name);
  }

  lemma HitIsRight(entries: seq<Entry>, name: string)
    ensures NumberAfter(entries, FirstHit(entries, name, 0)) == Lookup(entries, name) <==> LooksUpRight(entries, name)
  {
    LookupIs(entries, name);
    HitIsName(entries, name, 0);
    var hit, m := FirstHit(entries, name, 0), FirstNamed(entries, name);
    if hit.Own? && m < hit.k {
      BeforeHit(entries, name, 0, m);
    }
  }

  lemma LookupIs(entries: seq<Entry>, name: string)
    ensures var m := FirstNamed(entries, name); Lookup(entries, name) == if m < |entries| then entries[m].ino else -1
  {
    assert entries[0..] == entries;
    LookupFrom(entries, name, 0, FirstNamed(entries, name));
  }

  /** The first entry of a name, or the number of entries. */
  function FirstNamed(entries: seq<Entry>, name: string): (m: int)
    ensures 0 <= m <= |entries| && (m < |entries| ==> entries[m].name == name)
    ensures forall i :: 0 <= i < m ==> entries[i].name != name
  {
    if entries == [] then 0
    else if entries[0].name == name then 0
    else
      var m := FirstNamed(entries[1..], name);
      assert forall i :: 0 < i <= m ==> entries[i] == entries[1..][i - 1] || i == |entries|;
      1 + m
  }

  /** A name that does not begin like a number. */
  predicate Plain(name: string) {
    Word(name) && !IsDigit(name[0]) && !IsSpace(name[0]) && name[0] != '-' && name[0] != '+'
  }

  lemma PlainNext(entries: seq<Entry>, k: int)
    requires 0 <= k < |entries| && forall i :: 0 <= i < |entries| ==> Plain(entries[i].name)
    ensures AfterEntry(entries, k) == 0
  {
    var rest := entries[k + 1..];
    var text := " " + Print(rest);
    assert text[1..] == Print(rest);
    if rest != [] {
      assert Plain(entries[k + 1].name) && rest[0] == entries[k + 1];
      var next := Print(rest);
      assert next[0] == PrintEntry(rest[0])[0] == rest[0].name[0];
      assert Atoi(text) == Atoi(next) == Digits(next, 0) == 0;
    } else {
      assert Print(rest) == "" && Atoi(text) == Atoi("") == 0;
    }
  }

  /** If no name begins like a number, a stray word leads to 0: the lookup is right exactly if the first printed word
      that equals the name is the name of the first entry called so, if there is neither, or if that entry has number 0
      and a stray word comes before it.  A plain name is never a number, so only a name joined to a number of four
      digits or more can be a stray word for it. */
  lemma PlainRoundTrip(entries: seq<Entry>, name: string)
    requires Word(name) && forall i :: 0 <= i < |entries| ==> Plain(entries[i].name)
    ensures Scan(Print(entries), name, true) == Lookup(entries, name)
            <==> match FirstHit(entries, name, 0)
                 case Nothing => forall i :: 0 <= i < |entries| ==> entries[i].name != name
                 case Own(k) => forall i :: 0 <= i < k ==> entries[i].name != name
                 case Stray(k) => Lookup(entries, name) == 0
    ensures Plain(name) && FirstHit(entries, name, 0).Stray? ==> entries[FirstHit(entries, name, 0).k].ino >= 1000
    ensures Scan(Print(entries), name, true) < 1000
  {
    RoundTrip(entries, name);
    ScanPrinted(entries, name, 0);
    assert entries[0..] == entries;
    HitIsName(entries, name, 0);
    var hit := FirstHit(entries, name, 0);
    if hit.Stray? {
      PlainNext(entries, hit.k);
      StrayWord(entries, name, 0);
      assert OtherWord(entries[hit.k])[0] == name[0];
    }
  }

  /** With plain names and numbers below 1000 throughout, the lookup of a plain name is right. */
  lemma PlainLookup(entries: seq<Entry>, name: string)
    requires Plain(name) && forall i :: 0 <= i < |entries| ==> Plain(entries[i].name) && entries[i].ino < 1000
    ensures Scan(Print(entries), name, true) == Lookup(entries, name)
  {
    PlainRoundTrip(entries, name);
    forall i | 0 <= i < |entries| && entries[i].name == name
      ensures !FirstHit(entries, name, 0).Nothing? && FirstHit(entries, name, 0).k <= i
    {
      HitBy(entries, name, 0, i);
    }
  }

  lemma {:induction false} StrayWord(entries: seq<Entry>, name: string, from: nat)
    requires from <= |entries|
    ensures var hit := FirstHit(entries, name, from); hit.Stray? ==> OtherWord(entries[hit.k]) == name
    decreases |entries| - from
  {
    if from < |entries| {
      StrayWord(entries, name, from + 1);
    }
  }

  /** From 1000 on a number is printed next to its name: a single entry is found exactly when its number is smaller. */
  lemma FoundExactly(e: Entry)
    requires Word(e.name)
    ensures Scan(PrintEntry(e), e.name, true) == e.ino <==> e.ino < 1000
  {
    assert PrintEntry(e) + "" == PrintEntry(e);
    if e.ino < 1000 {
      ScanEntry(e, e.name, "");
    } else {
      DecimalLength(e.ino);
      var w := e.name + Decimal(e.ino);
      assert PrintEntry(e) == w + " " + "";
      ScanWord(w, e.name, "");
    }
  }

  /** A number is taken for a name: it is found, with whatever number follows it, here none. */
  lemma NumberTakenForName()
    ensures Lookup([Entry("a", 6)], "6") == -1 && Scan(Print([Entry("a", 6)]), "6", true) == 0
  {
    var entries := [Entry("a", 6)];
    assert Decimal(6) == "6" && Print(entries[1..]) == "";
    assert Blanks(3) == " " + Blanks(2);
    var rest := Blanks(2) + ("6" + " " + "");
    assert Print(entries) == "a" + " " + rest;
    ScanWord("a", "6", rest);
    ScanBlanks(2, "6", "6" + " " + "");
    ScanWord("6", "6", "");
    assert Atoi(" ") == 0;
    assert " " + "" == " ";
  }
}
