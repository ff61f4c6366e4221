/** Key events and key sequences as text: printing and parsing. */
module KeySequences {
  import opened Commons
  import opened Spellings

  const WIDTH: nat := 32

  /** The modifier bits that are set, by number. */
  type Bits = set<nat>

  const NO_BITS: Bits := {}

  const VOID_SYMBOL := 0xffffff

  datatype KeyEvent = KeyEvent(keycode: int, modifier: Bits)

  /** The names of keys and of modifiers. Bits outside the mask are never shown. */
  datatype KeyTable = KeyTable(names: map<int, string>, codes: map<string, int>, modifierNames: seq<Option<string>>, mask: Bits)
  {
    ghost predicate PlainName(name: string) {
      |name| > 0 && '+' !in name && '}' !in name
    }

    /** Names are free of the characters that structure the text; the name of a key leads back
        to it; a name of one letter is the character of its key; modifiers have different names. */
    ghost predicate Valid() {
      && |modifierNames| == WIDTH
      && (forall c :: c in names ==>
            && PlainName(names[c]) && names[c] in codes && codes[names[c]] == c
            && (|names[c]| == 1 ==> names[c][0] != '{' && CharCode(names[c][0]) == c && c != VOID_SYMBOL))
      && (forall n :: n in codes ==> !(HEX_PREFIX <= n) && n != UNKNOWN)
      && (forall i :: 0 <= i < WIDTH && modifierNames[i].Some? ==> PlainName(modifierNames[i].value))
      && (forall i, j :: 0 <= i < j < WIDTH && modifierNames[i].Some? ==> modifierNames[i] != modifierNames[j])
    }

    /** The bit of a modifier's name. */
    function BitOf(name: string, i: nat): (r: nat)
      requires |modifierNames| == WIDTH && i <= WIDTH
      ensures i <= r <= WIDTH
      ensures r < WIDTH ==> modifierNames[r] == Some(name)
      ensures forall j :: i <= j < r ==> modifierNames[j] != Some(name)
      decreases WIDTH - i
    {
      if i == WIDTH || modifierNames[i] == Some(name) then i else BitOf(name, i + 1)
    }

    function KeycodeByName(name: string): int {
      if name in codes then codes[name] else VOID_SYMBOL
    }

    predicate Shown(i: nat)
      requires i < WIDTH && |modifierNames| == WIDTH
    {
      i in mask && modifierNames[i].Some?
    }

    /** All modifiers of the event have names. */
    ghost predicate NamedBits(bits: Bits)
      requires |modifierNames| == WIDTH
    {
      forall i :: i in bits ==> i < WIDTH && Shown(i)
    }

    /** The event survives being printed and parsed. */
    ghost predicate Regular(e: KeyEvent)
      requires |modifierNames| == WIDTH
    {
      e.keycode in names && e.keycode != VOID_SYMBOL && NamedBits(e.modifier)
    }
  }

  const HEX_PREFIX := "0x"
  const UNKNOWN := "(unknown)"

  /** A byte as a signed number. */
  function CharCode(c: char): int {
    if c as int < 0x80 then c as int else c as int - 0x100
  }

  // ----- hexadecimal numbers -----

  const DIGITS := "0123456789abcdef"

  function Hex(n: nat): (s: string)
    ensures |s| > 0 && forall i :: 0 <= i < |s| ==> s[i] in DIGITS
  {
    (if n < 16 then "" else Hex(n / 16)) + [DIGITS[n % 16]]
  }

  /** Padded with spaces on the left. */
  function Padded(s: string, width: nat): (r: string)
    ensures |r| >= width && |r| >= |s|
    ensures forall c :: c in r ==> c in s || c == ' '
    decreases width - |s|
  {
    if |s| < width then Padded(" " + s, width) else s
  }

  /** The bits of a negative number are those of an unsigned one of 32 bits. */
  function Unsigned(n: int): nat {
    if n >= 0 then n else n % 0x1_0000_0000
  }

  /** The text of a key without a name. */
  function Nameless(keycode: int): Option<string> {
    if keycode <= 0xffff then Some(HEX_PREFIX + Padded(Hex(Unsigned(keycode)), 4))
    else if keycode <= 0xffffff then Some(HEX_PREFIX + Padded(Hex(Unsigned(keycode)), 6))
    else None
  }

  // ----- one event -----

  /** The names of the modifiers from bit `i` on. */
  function ModifiersText(table: KeyTable, bits: Bits, i: nat): string
    requires |table.modifierNames| == WIDTH && i <= WIDTH
    decreases WIDTH - i
  {
    if i == WIDTH then ""
    else (if i in bits && table.Shown(i) then table.modifierNames[i].value + "+" else "") + ModifiersText(table, bits, i + 1)
  }

  function EventText(table: KeyTable, e: KeyEvent): string
    requires |table.modifierNames| == WIDTH
  {
    var modifiers := ModifiersText(table, e.modifier, 0);
    if e.keycode in table.names then modifiers + table.names[e.keycode]
    else match Nameless(e.keycode) case Some(s) => modifiers + s case None => UNKNOWN
  }

  /** The modifiers collected are those below bit `i`. */
  ghost predicate Collected(table: KeyTable, bits: Bits, i: nat, modifiers: string)
    requires |table.modifierNames| == WIDTH && i <= WIDTH
  {
    modifiers + ModifiersText(table, bits, i) == ModifiersText(table, bits, 0)
  }

  lemma CollectsNext(table: KeyTable, bits: Bits, i: nat, modifiers: string)
    requires |table.modifierNames| == WIDTH && i < WIDTH && Collected(table, bits, i, modifiers)
    ensures !(i in bits && table.Shown(i)) ==> Collected(table, bits, i + 1, modifiers)
    ensures i in bits && table.Shown(i) ==> Collected(table, bits, i + 1, modifiers + (table.modifierNames[i].value + "+"))
  {
    if i in bits && table.Shown(i) {
      Associate(modifiers, table.modifierNames[i].value + "+", ModifiersText(table, bits, i + 1));
    } else {
      assert "" + ModifiersText(table, bits, i + 1) == ModifiersText(table, bits, i + 1);
    }
  }

  lemma CollectsAll(table: KeyTable, bits: Bits, modifiers: string)
    requires |table.modifierNames| == WIDTH
    ensures Collected(table, bits, 0, "")
    ensures Collected(table, bits, WIDTH, modifiers) ==> modifiers == ModifiersText(table, bits, 0)
  {
    assert modifiers + "" == modifiers;
    assert "" + ModifiersText(table, bits, 0) == ModifiersText(table, bits, 0);
  }

  method ModifiersOf(table: KeyTable, bits: Bits) returns (modifiers: string)
    requires |table.modifierNames| == WIDTH
    ensures modifiers == ModifiersText(table, bits, 0)
  {
    hide Collected, ModifiersText;
    modifiers := "";
    CollectsAll(table, bits, "");
    for i := 0 to WIDTH
      invariant Collected(table, bits, i, modifiers)
    {
      CollectsNext(table, bits, i, modifiers);
      if i in bits && i in table.mask {
        if table.modifierNames[i].Some? {
          modifiers := modifiers + (table.modifierNames[i].value + "+");
        }
      }
    }
    CollectsAll(table, bits, modifiers);
  }

  method ReprEvent(table: KeyTable, e: KeyEvent) returns (s: string)
    requires |table.modifierNames| == WIDTH
    ensures s == EventText(table, e)
  {
    hide ModifiersText, Nameless;
    var modifiers := ModifiersOf(table, e.modifier);
    if e.keycode in table.names {
      return modifiers + table.names[e.keycode];
    }
    var value := Nameless(e.keycode);
    if value.None? {
      return UNKNOWN;
    }
    s := modifiers + value.value;
  }

  /** The first `c` from `from` on, or the end. */
  function FindChar(s: string, c: char, from: nat): (r: nat)
    requires from <= |s|
    ensures from <= r <= |s| && c !in s[from..r] && (r < |s| ==> s[r] == c)
    decreases |s| - from
  {
    if from == |s| || s[from] == c then from
    else
      var r := FindChar(s, c, from + 1);
      assert s[from..r] == [s[from]] + s[from + 1..r];
      r
  }

  function Tokens(table: KeyTable, s: string, start: nat, bits: Bits): Option<KeyEvent>
    requires |table.modifierNames| == WIDTH && start <= |s|
    decreases |s| - start
  {
    var found := FindChar(s, '+', start);
    if found == |s| then
      var keycode := table.KeycodeByName(s[start..]);
      if keycode == VOID_SYMBOL then None else Some(KeyEvent(keycode, bits))
    else
      var bit := table.BitOf(s[start..found], 0);
      if bit == WIDTH then None else Tokens(table, s, found + 1, bits + {bit})
  }

  function Parsed(table: KeyTable, s: string): Option<KeyEvent>
    requires |table.modifierNames| == WIDTH
  {
    if |s| == 0 then None
    else if |s| == 1 then Some(KeyEvent(CharCode(s[0]), NO_BITS))
    else Tokens(table, s, 0, NO_BITS)
  }

  /** The modifiers, one by one, and the place where the name of the key begins. */
  method ParseTokens(table: KeyTable, repr: string) returns (r: Option<KeyEvent>)
    requires |table.modifierNames| == WIDTH
    ensures r == Tokens(table, repr, 0, NO_BITS)
  {
    hide FindChar, KeyTable.BitOf, KeyTable.KeycodeByName;
    var start := 0;
    var modifier := NO_BITS;
    var found := FindChar(repr, '+', start);
    while found < |repr|
      invariant start <= |repr| && found == FindChar(repr, '+', start)
      invariant Tokens(table, repr, start, modifier) == Tokens(table, repr, 0, NO_BITS)
      decreases |repr| - start
    {
      var bit := table.BitOf(repr[start..found], 0);
      if bit == WIDTH {
        return None;
      }
      modifier := modifier + {bit};
      start := found + 1;
      found := FindChar(repr, '+', start);
    }
    var keycode := table.KeycodeByName(repr[start..]);
    if keycode == VOID_SYMBOL {
      return None;
    }
    r := Some(KeyEvent(keycode, modifier));
  }

  method ParseEvent(table: KeyTable, repr: string) returns (r: Option<KeyEvent>)
    requires |table.modifierNames| == WIDTH
    ensures r == Parsed(table, repr)
  {
    hide Tokens;
    if |repr| == 0 {
      return None;
    }
    if |repr| == 1 {
      return Some(KeyEvent(CharCode(repr[0]), NO_BITS));
    }
    r := ParseTokens(table, repr);
  }

  // ----- an event there and back -----

  lemma FindsChar(s: string, c: char, from: nat, r: nat)
    requires from <= r <= |s| && c !in s[from..r] && (r < |s| ==> s[r] == c)
    ensures FindChar(s, c, from) == r
  {
    var f := FindChar(s, c, from);
    forall k | from <= k < r
      ensures s[k] != c
    {
      assert s[from..r][k - from] == s[k];
    }
    forall k | from <= k < f
      ensures s[k] != c
    {
      assert s[from..f][k - from] == s[k];
    }
  }

  /** The bits below `i`, and of the rest those that are shown. */
  ghost predicate ReadsBits(table: KeyTable, bits: Bits, i: nat, before: Bits, after: Bits)
    requires |table.modifierNames| == WIDTH && i <= WIDTH
  {
    forall j :: j in after <==> j in before || (i <= j < WIDTH && j in bits && table.Shown(j))
  }

  lemma ModifierIsPlain(table: KeyTable, i: nat)
    requires table.Valid() && i < WIDTH && table.modifierNames[i].Some?
    ensures table.PlainName(table.modifierNames[i].value) && table.BitOf(table.modifierNames[i].value, 0) == i
  {
    BitIs(table, i);
  }

  /** One modifier is read, and the rest is left. */
  lemma ReadModifier(table: KeyTable, i: nat, prefix: string, rest: string, before: Bits)
    requires |table.modifierNames| == WIDTH && table.Valid() && i < WIDTH && table.modifierNames[i].Some?
    ensures var modifier := table.modifierNames[i].value + "+";
            var s := prefix + (modifier + rest);
            Tokens(table, s, |prefix|, before) == Tokens(table, s, |prefix + modifier|, before + {i})
  {
    hide Tokens, FindChar, KeyTable.Valid, KeyTable.BitOf, KeyTable.KeycodeByName;
    var modifier := table.modifierNames[i].value;
    var s := prefix + ((modifier + "+") + rest);
    ModifierIsPlain(table, i);
    Cut(prefix, modifier, '+', rest);
    ReadToken(table, s, |prefix|, modifier, before);
  }

  /** The part between `a` and the character `c`. */
  lemma Cut(a: string, b: string, c: char, rest: string)
    ensures var s := a + ((b + [c]) + rest);
            s[|a|..|a| + |b|] == b && s[|a| + |b|] == c
  {
    var s := a + ((b + [c]) + rest);
    assert forall k :: 0 <= k < |b| ==> s[|a| + k] == b[k];
  }

  /** A token before a plus sign adds its bit. */
  lemma ReadToken(table: KeyTable, s: string, start: nat, token: string, before: Bits)
    requires |table.modifierNames| == WIDTH && start + |token| < |s| && s[start..start + |token|] == token
    requires s[start + |token|] == '+' && '+' !in token && table.BitOf(token, 0) < WIDTH
    ensures Tokens(table, s, start, before) == Tokens(table, s, start + |token| + 1, before + {table.BitOf(token, 0)})
  {
    FindsChar(s, '+', start, start + |token|);
    hide FindChar, KeyTable.BitOf, KeyTable.KeycodeByName;
  }

  /** Parsing the names of the modifiers sets their bits, and leaves the name of the key. */
  lemma {:induction false} ReadModifiers(table: KeyTable, bits: Bits, i: nat, prefix: string, name: string, before: Bits) returns (after: Bits)
    requires |table.modifierNames| == WIDTH && table.Valid() && i <= WIDTH
    ensures ReadsBits(table, bits, i, before, after)
    ensures var s := prefix + (ModifiersText(table, bits, i) + name);
            Tokens(table, s, |prefix|, before) == Tokens(table, s, |s| - |name|, after)
    decreases WIDTH - i
  {
    hide Tokens, KeyTable.Valid;
    if i == WIDTH {
      after := before;
      assert "" + name == name;
    } else if i in bits && table.Shown(i) {
      var modifier := table.modifierNames[i].value + "+";
      var rest := ModifiersText(table, bits, i + 1);
      ReadModifier(table, i, prefix, rest + name, before);
      Associate(modifier, rest, name);
      Associate(prefix, modifier, rest + name);
      after := ReadModifiers(table, bits, i + 1, prefix + modifier, name, before + {i});
      ReadsOne(table, bits, i, before, after);
    } else {
      var rest := ModifiersText(table, bits, i + 1);
      assert "" + rest == rest;
      after := ReadModifiers(table, bits, i + 1, prefix, name, before);
    }
  }

  lemma ReadsOne(table: KeyTable, bits: Bits, i: nat, before: Bits, after: Bits)
    requires |table.modifierNames| == WIDTH && i < WIDTH && i in bits && table.Shown(i)
    requires ReadsBits(table, bits, i + 1, before + {i}, after)
    ensures ReadsBits(table, bits, i, before, after)
  {
  }

  lemma BitIs(table: KeyTable, i: nat)
    requires table.Valid() && i < WIDTH && table.modifierNames[i].Some?
    ensures table.BitOf(table.modifierNames[i].value, 0) == i
  {
    var r := table.BitOf(table.modifierNames[i].value, 0);
    assert r <= i;
  }

  lemma LastToken(table: KeyTable, s: string, name: string, bits: Bits)
    requires table.Valid() && '+' !in name && |name| <= |s| && s[|s| - |name|..] == name
    ensures Tokens(table, s, |s| - |name|, bits)
            == (if table.KeycodeByName(name) == VOID_SYMBOL then None else Some(KeyEvent(table.KeycodeByName(name), bits)))
  {
    assert s[|s| - |name|..|s|] == name;
    FindsChar(s, '+', |s| - |name|, |s|);
  }

  /** What parsing a text of modifiers and a name comes to. */
  lemma TextIsRead(table: KeyTable, bits: Bits, name: string) returns (after: Bits)
    requires |table.modifierNames| == WIDTH && table.Valid() && '+' !in name && |name| > 0
    ensures ReadsBits(table, bits, 0, NO_BITS, after)
    ensures var s := ModifiersText(table, bits, 0) + name;
            |s| > 1 ==> Parsed(table, s) == (if table.KeycodeByName(name) == VOID_SYMBOL then None
                                             else Some(KeyEvent(table.KeycodeByName(name), after)))
  {
    hide Tokens, KeyTable.Valid, ModifiersText, ReadsBits, KeyTable.KeycodeByName;
    var s := ModifiersText(table, bits, 0) + name;
    assert "" + s == s;
    after := ReadModifiers(table, bits, 0, "", name, NO_BITS);
    LastToken(table, s, name, after);
  }

  lemma BitsReadBack(table: KeyTable, bits: Bits, after: Bits)
    requires |table.modifierNames| == WIDTH && ReadsBits(table, bits, 0, NO_BITS, after)
    ensures after == bits <==> table.NamedBits(bits)
  {
    if table.NamedBits(bits) {
      assert forall i :: i in after <==> i in bits;
    }
  }

  lemma NamelessText(keycode: int)
    ensures Nameless(keycode).Some? ==> '+' !in Nameless(keycode).value && '}' !in Nameless(keycode).value && |Nameless(keycode).value| > 2
    ensures Nameless(keycode).Some? ==> HEX_PREFIX <= Nameless(keycode).value
  {
  }

  lemma {:induction false} NoModifiersText(table: KeyTable, bits: Bits, i: nat)
    requires table.Valid() && i <= WIDTH
    ensures ModifiersText(table, bits, i) == "" ==> forall j :: i <= j < WIDTH ==> !(j in bits && table.Shown(j))
    ensures '}' !in ModifiersText(table, bits, i)
    decreases WIDTH - i
  {
    if i < WIDTH { NoModifiersText(table, bits, i + 1); }
  }

  lemma NamedRoundTrip(table: KeyTable, e: KeyEvent)
    requires table.Valid() && e.keycode in table.names
    ensures Parsed(table, EventText(table, e)) == Some(e) <==> table.Regular(e)
  {
    hide ModifiersText, Tokens, ReadsBits, KeyTable.NamedBits, KeyTable.BitOf, KeyTable.Shown;
    var name := table.names[e.keycode];
    var s := EventText(table, e);
    var after := TextIsRead(table, e.modifier, name);
    BitsReadBack(table, e.modifier, after);
    NoModifiersText(table, e.modifier, 0);
    if |s| == 1 { ShortText(table, e.modifier, name, after); }
  }

  lemma ShortText(table: KeyTable, bits: Bits, name: string, after: Bits)
    requires table.Valid() && |name| > 0 && |ModifiersText(table, bits, 0) + name| == 1 && ReadsBits(table, bits, 0, NO_BITS, after)
    ensures ModifiersText(table, bits, 0) == "" && ModifiersText(table, bits, 0) + name == name && after == NO_BITS
  {
    NoModifiersText(table, bits, 0);
    hide ModifiersText;
    assert ModifiersText(table, bits, 0) == "";
  }

  lemma NamelessRoundTrip(table: KeyTable, e: KeyEvent)
    requires table.Valid() && e.keycode !in table.names
    ensures Parsed(table, EventText(table, e)) == None
  {
    NamelessText(e.keycode);
    if Nameless(e.keycode).Some? {
      var after := TextIsRead(table, e.modifier, Nameless(e.keycode).value);
    } else {
      LastToken(table, UNKNOWN, UNKNOWN, NO_BITS);
    }
  }

  /** Main result: printing and parsing gives an event back exactly if its key has a name that
      can be parsed and its modifiers all have names. */
  lemma EventRoundTrip(table: KeyTable, e: KeyEvent)
    requires table.Valid()
    ensures Parsed(table, EventText(table, e)) == Some(e) <==> table.Regular(e)
  {
    if e.keycode in table.names { NamedRoundTrip(table, e); } else { NamelessRoundTrip(table, e); }
  }

  // ----- sequences -----

  function Braced(s: string): string {
    if |s| == 1 then s else ("{" + s + "}")
  }

  function SequenceText(table: KeyTable, events: seq<KeyEvent>): string
    requires |table.modifierNames| == WIDTH
  {
    if |events| == 0 then "" else Braced(EventText(table, events[0])) + SequenceText(table, events[1..])
  }

  /** The text printed is that of the events below `i`. */
  ghost predicate Printed(table: KeyTable, events: seq<KeyEvent>, i: nat, result: string)
    requires |table.modifierNames| == WIDTH && i <= |events|
  {
    result + SequenceText(table, events[i..]) == SequenceText(table, events)
  }

  lemma PrintsNext(table: KeyTable, events: seq<KeyEvent>, i: nat, result: string)
    requires |table.modifierNames| == WIDTH && i < |events| && Printed(table, events, i, result)
    ensures Printed(table, events, i + 1, result + Braced(EventText(table, events[i])))
  {
    hide EventText, Braced;
    assert events[i..][1..] == events[i + 1..];
    Associate(result, Braced(EventText(table, events[i])), SequenceText(table, events[i + 1..]));
  }

  lemma PrintsAll(table: KeyTable, events: seq<KeyEvent>, result: string)
    requires |table.modifierNames| == WIDTH
    ensures Printed(table, events, 0, "")
    ensures Printed(table, events, |events|, result) ==> result == SequenceText(table, events)
  {
    hide EventText;
    assert result + "" == result;
    assert "" + SequenceText(table, events) == SequenceText(table, events) && events[0..] == events;
  }

  /** The events of the text from `i` on, behind those read so far. */
  function SequenceFrom(table: KeyTable, s: string, i: nat, read: seq<KeyEvent>): Option<seq<KeyEvent>>
    requires |table.modifierNames| == WIDTH && i <= |s|
    decreases |s| - i
  {
    if i == |s| then Some(read)
    else if s[i] == '{' && i + 1 < |s| then
      var j := FindChar(s, '}', i + 1);
      if j == |s| then None
      else
        match Parsed(table, s[i + 1..j])
        case None => None
        case Some(e) => SequenceFrom(table, s, j + 1, read + [e])
    else
      match Parsed(table, s[i..i + 1])
      case None => None
      case Some(e) => SequenceFrom(table, s, i + 1, read + [e])
  }

  /** The events of the text from `i` on, as far as they can be read. */
  function EventsRead(table: KeyTable, s: string, i: nat): seq<KeyEvent>
    requires |table.modifierNames| == WIDTH && i <= |s|
    decreases |s| - i
  {
    if i == |s| then []
    else if s[i] == '{' && i + 1 < |s| then
      var j := FindChar(s, '}', i + 1);
      if j == |s| then []
      else
        match Parsed(table, s[i + 1..j])
        case None => []
        case Some(e) => [e] + EventsRead(table, s, j + 1)
    else
      match Parsed(table, s[i..i + 1])
      case None => []
      case Some(e) => [e] + EventsRead(table, s, i + 1)
  }

  /** The text up to `i` has been read. */
  ghost predicate Reading(table: KeyTable, s: string, i: nat, read: seq<KeyEvent>)
    requires |table.modifierNames| == WIDTH && i <= |s|
  {
    && SequenceFrom(table, s, i, read) == SequenceFrom(table, s, 0, [])
    && read + EventsRead(table, s, i) == EventsRead(table, s, 0)
  }

  ghost predicate ReadsOrFails(table: KeyTable, s: string, e: Option<KeyEvent>, next: nat, read: seq<KeyEvent>)
    requires |table.modifierNames| == WIDTH && next <= |s|
  {
    match e
    case None => SequenceFrom(table, s, 0, []) == None && EventsRead(table, s, 0) == read
    case Some(e) => Reading(table, s, next, read + [e])
  }

  /** The next piece of the text is read, or the reading ends there. */
  lemma PieceIsRead(table: KeyTable, s: string, i: nat, read: seq<KeyEvent>)
    requires |table.modifierNames| == WIDTH && i < |s| && Reading(table, s, i, read)
    ensures s[i] == '{' && i + 1 < |s| ==>
              var j := FindChar(s, '}', i + 1);
              if j == |s| then ReadsOrFails(table, s, None, i, read) else ReadsOrFails(table, s, Parsed(table, s[i + 1..j]), j + 1, read)
    ensures !(s[i] == '{' && i + 1 < |s|) ==> ReadsOrFails(table, s, Parsed(table, s[i..i + 1]), i + 1, read)
  {
    hide Parsed, FindChar;
    assert read + [] == read;
    var j := if s[i] == '{' && i + 1 < |s| then FindChar(s, '}', i + 1) else i;
    if j < |s| {
      var e := if s[i] == '{' && i + 1 < |s| then Parsed(table, s[i + 1..j]) else Parsed(table, s[i..i + 1]);
      if e.Some? { Associate(read, [e.value], EventsRead(table, s, j + 1)); }
    }
  }

  class KeySequence {
    const table: KeyTable
    var events: seq<KeyEvent>

    constructor (table: KeyTable, events: seq<KeyEvent>)
      ensures this.table == table && this.events == events
    {
      this.table, this.events := table, events;
    }

    method Repr() returns (result: string)
      requires |table.modifierNames| == WIDTH
      ensures result == SequenceText(table, events)
    {
      hide EventText, SequenceText, Printed;
      result := "";
      PrintsAll(table, events, result);
      for i := 0 to |events|
        invariant Printed(table, events, i, result)
      {
        PrintsNext(table, events, i, result);
        var k := ReprEvent(table, events[i]);
        if |k| == 1 {
          result := result + k;
        } else {
          result := result + ("{" + k + "}");
        }
      }
      PrintsAll(table, events, result);
    }

    method Parse(repr: string) returns (ok: bool)
      requires |table.modifierNames| == WIDTH
      modifies this
      ensures ok <==> SequenceFrom(table, repr, 0, []).Some?
      ensures ok ==> Some(events) == SequenceFrom(table, repr, 0, [])
      ensures events == EventsRead(table, repr, 0)
    {
      events := [];
      var i := 0;
      assert Reading(table, repr, 0, []);
      while i < |repr|
        invariant i <= |repr| && Reading(table, repr, i, events)
      {
        hide Parsed, Reading, SequenceFrom, EventsRead, FindChar;
        PieceIsRead(table, repr, i, events);
        var start := i;
        var len := 1;
        if repr[i] == '{' && i + 1 < |repr| {
          start := i + 1;
          var j := FindChar(repr, '}', start);
          if j == |repr| {
            return false;
          }
          len := j - start;
          i := j;
        }
        var e := ParseEvent(table, repr[start..start + len]);
        if e.None? {
          return false;
        }
        events := events + [e.value];
        i := i + 1;
      }
      assert events + [] == events;
      ok := true;
    }
  }

  // ----- a sequence there and back -----

  lemma TextIsUnbraced(table: KeyTable, e: KeyEvent)
    requires table.Valid()
    ensures '}' !in EventText(table, e) && |EventText(table, e)| > 0
    ensures |EventText(table, e)| == 1 ==> EventText(table, e)[0] != '{'
  {
    hide ModifiersText, Nameless;
    NoModifiersText(table, e.modifier, 0);
    NamelessText(e.keycode);
    if e.keycode in table.names && |EventText(table, e)| == 1 {
      assert EventText(table, e) == table.names[e.keycode];
    }
  }

  /** Parsing reads the first event of a text that begins with one, and goes on behind it. */
  lemma ReadsFirst(table: KeyTable, prefix: string, k: string, rest: string, read: seq<KeyEvent>)
    requires |table.modifierNames| == WIDTH && |k| > 0 && '}' !in k && (|k| == 1 ==> k[0] != '{')
    ensures var s := prefix + Braced(k) + rest;
            SequenceFrom(table, s, |prefix|, read)
            == match Parsed(table, k) case None => None case Some(e) => SequenceFrom(table, s, |prefix + Braced(k)|, read + [e])
  {
    hide Parsed, FindChar, SequenceFrom;
    var s := prefix + Braced(k) + rest;
    if |k| == 1 {
      BareAt(prefix, k, rest);
      ReadBare(table, s, |prefix|, read);
    } else {
      BracedAt(prefix, k, rest);
      ReadBraced(table, s, |prefix|, k, read);
    }
  }

  lemma Unbrace(prefix: string, k: string, rest: string)
    ensures prefix + ("{" + k + "}") + rest == (prefix + "{") + ((k + "}") + rest)
    ensures (prefix + ("{" + k + "}") + rest)[|prefix|] == '{'
  {
  }

  lemma BareAt(prefix: string, k: string, rest: string)
    requires |k| == 1
    ensures var s := prefix + k + rest; s[|prefix|..|prefix| + 1] == k && s[|prefix|] == k[0]
  {
  }

  lemma BracedAt(prefix: string, k: string, rest: string)
    ensures var s := prefix + ("{" + k + "}") + rest;
            && |s| > |prefix| + 1 + |k| && s[|prefix|] == '{' && s[|prefix| + 1..|prefix| + 1 + |k|] == k && s[|prefix| + 1 + |k|] == '}'
    ensures |prefix + ("{" + k + "}")| == |prefix| + |k| + 2
  {
    Unbrace(prefix, k, rest);
    Cut(prefix + "{", k, '}', rest);
  }

  lemma ReadBare(table: KeyTable, s: string, i: nat, read: seq<KeyEvent>)
    requires |table.modifierNames| == WIDTH && i < |s| && s[i] != '{'
    ensures SequenceFrom(table, s, i, read)
            == match Parsed(table, s[i..i + 1]) case None => None case Some(e) => SequenceFrom(table, s, i + 1, read + [e])
  {
    hide Parsed;
  }

  lemma ReadBraced(table: KeyTable, s: string, i: nat, k: string, read: seq<KeyEvent>)
    requires |table.modifierNames| == WIDTH && i + 1 + |k| < |s| && s[i] == '{'
    requires s[i + 1..i + 1 + |k|] == k && s[i + 1 + |k|] == '}' && '}' !in k
    ensures SequenceFrom(table, s, i, read)
            == match Parsed(table, k) case None => None case Some(e) => SequenceFrom(table, s, i + |k| + 2, read + [e])
  {
    FindsChar(s, '}', i + 1, i + 1 + |k|);
    hide Parsed, FindChar;
  }

  lemma {:induction false} ReadsAll(table: KeyTable, events: seq<KeyEvent>, prefix: string, read: seq<KeyEvent>)
    requires |table.modifierNames| == WIDTH && table.Valid()
    ensures SequenceFrom(table, prefix + SequenceText(table, events), |prefix|, read) == Some(read + events)
            <==> forall e :: e in events ==> table.Regular(e)
    decreases |events|
  {
    hide Parsed, EventText, KeyTable.Regular, KeyTable.Valid;
    if |events| == 0 {
      assert prefix + "" == prefix && read + [] == read;
    } else {
      hide SequenceFrom, Braced;
      var k, rest := EventText(table, events[0]), SequenceText(table, events[1..]);
      TextIsUnbraced(table, events[0]);
      EventRoundTrip(table, events[0]);
      ReadsFirst(table, prefix, k, rest, read);
      Associate(prefix, Braced(k), rest);
      Associate(read, [events[0]], events[1..]);
      assert events == [events[0]] + events[1..];
      if Parsed(table, k) == Some(events[0]) {
        ReadsAll(table, events[1..], prefix + Braced(k), read + [events[0]]);
      } else if Parsed(table, k).Some? {
        ReadsOther(table, prefix + Braced(k) + rest, |prefix + Braced(k)|, read, Parsed(table, k).value, events);
      }
    }
  }

  /** A sequence that begins otherwise is another sequence. */
  lemma ReadsOther(table: KeyTable, s: string, i: nat, read: seq<KeyEvent>, e: KeyEvent, events: seq<KeyEvent>)
    requires |table.modifierNames| == WIDTH && i <= |s| && |events| > 0 && events[0] != e
    ensures SequenceFrom(table, s, i, read + [e]) != Some(read + events)
  {
    KeepsRead(table, s, i, read + [e]);
    hide SequenceFrom;
    assert (read + events)[|read|] == events[0] && (read + [e])[|read|] == e;
  }

  /** What has been read stays read. */
  lemma {:induction false} KeepsRead(table: KeyTable, s: string, i: nat, read: seq<KeyEvent>)
    requires |table.modifierNames| == WIDTH && i <= |s|
    ensures SequenceFrom(table, s, i, read).Some? ==> read <= SequenceFrom(table, s, i, read).value
    decreases |s| - i
  {
    hide Parsed;
    if i < |s| {
      if s[i] == '{' && i + 1 < |s| {
        var j := FindChar(s, '}', i + 1);
        if j < |s| && Parsed(table, s[i + 1..j]).Some? { KeepsRead(table, s, j + 1, read + [Parsed(table, s[i + 1..j]).value]); }
      } else if Parsed(table, s[i..i + 1]).Some? {
        KeepsRead(table, s, i + 1, read + [Parsed(table, s[i..i + 1]).value]);
      }
    }
  }

  /** Main result: printing and parsing gives a sequence back exactly if it does so for each of
      its events. */
  lemma SequenceRoundTrip(table: KeyTable, events: seq<KeyEvent>)
    requires table.Valid()
    ensures SequenceFrom(table, SequenceText(table, events), 0, []) == Some(events)
            <==> forall e :: e in events ==> table.Regular(e)
  {
    ReadsAll(table, events, "", []);
    assert "" + SequenceText(table, events) == SequenceText(table, events);
    assert [] + events == events;
  }
}
