/** Key events and sequences as text, written out on letters. */
module KeyEventLaws {
  import opened Commons
  import opened Spellings
  import opened KeySequences

  // ----- printing -----

  ghost predicate NamedBit(table: KeyTable, bits: Bits, i: nat) {
    i < |table.modifierNames| && i in bits && i in table.mask && table.modifierNames[i].Some?
  }

  /** The names of the modifiers that have one, from the lowest bit up, each with a plus sign. */
  lemma {:induction false} ModifiersTell(table: KeyTable, bits: Bits, i: nat, k: nat)
    requires |table.modifierNames| == 32 && i <= k <= 32 && forall j :: i <= j < k ==> !NamedBit(table, bits, j)
    ensures k == 32 ==> ModifiersText(table, bits, i) == ""
    ensures NamedBit(table, bits, k) ==>
              ModifiersText(table, bits, i) == table.modifierNames[k].value + "+" + ModifiersText(table, bits, k + 1)
    decreases k - i
  {
    if i < k {
      assert !NamedBit(table, bits, i);
      ModifiersTell(table, bits, i + 1, k);
      hide ModifiersText;
      OneOn(table, bits, i);
    }
  }

  lemma OneOn(table: KeyTable, bits: Bits, i: nat)
    requires |table.modifierNames| == 32 && i < 32 && !NamedBit(table, bits, i)
    ensures ModifiersText(table, bits, i) == ModifiersText(table, bits, i + 1)
  {
    assert "" + ModifiersText(table, bits, i + 1) == ModifiersText(table, bits, i + 1);
  }

  ghost function DigitValue(c: char): int {
    if '0' <= c <= '9' then c as int - '0' as int else if 'a' <= c <= 'f' then c as int - 'a' as int + 10 else -1
  }

  ghost function HexValue(s: string): int {
    if s == "" then 0 else HexValue(s[..|s| - 1]) * 16 + DigitValue(s[|s| - 1])
  }

  /** A number in hexadecimal digits, the first of which is zero for zero alone. */
  ghost predicate IsHex(s: string, n: nat) {
    && s != "" && (forall i :: 0 <= i < |s| ==> 0 <= DigitValue(s[i]) < 16)
    && HexValue(s) == n && (s[0] == '0' ==> s == "0")
  }

  lemma {:induction false} HexTells(n: nat)
    ensures IsHex(Hex(n), n) && (n > 0 ==> Hex(n)[0] != '0')
  {
    DigitTells(n % 16);
    var digit := DIGITS[n % 16];
    var rest := if n < 16 then "" else Hex(n / 16);
    assert Hex(n) == rest + [digit];
    if n >= 16 { HexTells(n / 16); }
    hide Hex, IsHex, DigitValue;
    IsOneMore(rest, n / 16, digit);
  }

  lemma IsOneMore(s: string, n: nat, digit: char)
    requires (s == "" && n == 0) || (IsHex(s, n) && n > 0 && s[0] != '0')
    requires 0 <= DigitValue(digit) < 16 && (digit == '0' <==> DigitValue(digit) == 0)
    ensures IsHex(s + [digit], n * 16 + DigitValue(digit))
    ensures n * 16 + DigitValue(digit) > 0 ==> (s + [digit])[0] != '0'
  {
    hide DigitValue;
    var t := s + [digit];
    assert t[..|t| - 1] == s && t[|t| - 1] == digit;
    if s == "" { assert HexValue("") == 0 && t == [digit]; } else { assert t[0] == s[0]; }
    assert HexValue(t) == n * 16 + DigitValue(digit);
  }

  lemma DigitTells(d: nat)
    requires d < 16
    ensures DigitValue(DIGITS[d]) == d && (DIGITS[d] == '0' <==> d == 0)
  {
  }

  lemma {:induction false} PaddedTells(s: string, width: nat)
    ensures var r := Padded(s, width);
            |r| == (if |s| < width then width else |s|) && r[|r| - |s|..] == s && forall i :: 0 <= i < |r| - |s| ==> r[i] == ' '
    decreases width - |s|
  {
    if |s| < width {
      PaddedTells(" " + s, width);
      var r := Padded(" " + s, width);
      assert r[|r| - |s| - 1..][1..] == r[|r| - |s|..] && r[|r| - |s| - 1] == (" " + s)[0];
    }
  }

  /** `0x`, spaces up to the width, and the digits of the 32 bits of the number. */
  ghost predicate IsNumber(s: string, keycode: int, width: nat) {
    exists pad, digits ::
      && s == "0x" + pad + digits && (forall i :: 0 <= i < |pad| ==> pad[i] == ' ')
      && |pad| == (if |digits| < width then width - |digits| else 0)
      && IsHex(digits, if keycode < 0 then keycode % 4294967296 else keycode)
  }

  /** Four digits or more up to 65535, six up to 16777215. */
  lemma NamelessTells(keycode: int)
    ensures keycode <= 65535 ==> Nameless(keycode).Some? && IsNumber(Nameless(keycode).value, keycode, 4)
    ensures 65535 < keycode <= 16777215 ==> Nameless(keycode).Some? && IsNumber(Nameless(keycode).value, keycode, 6)
    ensures 16777215 < keycode ==> Nameless(keycode) == None
  {
    NumberTells(keycode, 4);
    NumberTells(keycode, 6);
    hide Hex, Padded, IsNumber;
  }

  lemma NumberTells(keycode: int, width: nat)
    ensures IsNumber("0x" + Padded(Hex(Unsigned(keycode)), width), keycode, width)
  {
    HexTells(Unsigned(keycode));
    var n := if keycode < 0 then keycode % 4294967296 else keycode;
    assert n == Unsigned(keycode);
    hide Hex, IsHex, Unsigned;
    PaddedIsNumber(Hex(Unsigned(keycode)), keycode, width);
  }

  lemma PaddedIsNumber(digits: string, keycode: int, width: nat)
    requires IsHex(digits, if keycode < 0 then keycode % 4294967296 else keycode)
    ensures IsNumber("0x" + Padded(digits, width), keycode, width)
  {
    PaddedTells(digits, width);
    hide Padded, IsHex;
    var r := Padded(digits, width);
    var pad := r[..|r| - |digits|];
    assert r == pad + digits;
    assert "0x" + r == "0x" + pad + digits;
  }

  /** Modifiers, then the name of the key or its number; too large a number has no text. */
  lemma EventTells(table: KeyTable, e: KeyEvent)
    requires |table.modifierNames| == 32
    ensures e.keycode in table.names ==> EventText(table, e) == ModifiersText(table, e.modifier, 0) + table.names[e.keycode]
    ensures e.keycode !in table.names && e.keycode <= 16777215 ==>
              exists number :: IsNumber(number, e.keycode, if e.keycode <= 65535 then 4 else 6)
                               && EventText(table, e) == ModifiersText(table, e.modifier, 0) + number
    ensures e.keycode !in table.names && e.keycode > 16777215 ==> EventText(table, e) == "(unknown)"
  {
    NamelessTells(e.keycode);
    hide ModifiersText, IsNumber, Nameless;
    if e.keycode !in table.names && e.keycode <= 16777215 {
      assert EventText(table, e) == ModifiersText(table, e.modifier, 0) + Nameless(e.keycode).value;
    }
  }

  /** The texts of events stand side by side. */
  lemma {:induction false} SequenceTells(table: KeyTable, a: seq<KeyEvent>, b: seq<KeyEvent>)
    requires |table.modifierNames| == 32
    ensures SequenceText(table, a + b) == SequenceText(table, a) + SequenceText(table, b)
    decreases |a|
  {
    if a == [] {
      NothingBefore(table, b);
    } else {
      SequenceTells(table, a[1..], b);
      hide *;
      OneBefore(table, a, b);
    }
  }

  lemma OneBefore(table: KeyTable, a: seq<KeyEvent>, b: seq<KeyEvent>)
    requires |table.modifierNames| == 32 && a != []
    requires SequenceText(table, a[1..] + b) == SequenceText(table, a[1..]) + SequenceText(table, b)
    ensures SequenceText(table, a + b) == SequenceText(table, a) + SequenceText(table, b)
  {
    hide EventText, SequenceText, Braced;
    OneOff(table, a);
    OneOff(table, a + b);
    assert (a + b)[0] == a[0] && (a + b)[1..] == a[1..] + b;
    Associate(Braced(EventText(table, a[0])), SequenceText(table, a[1..]), SequenceText(table, b));
  }

  lemma NothingBefore(table: KeyTable, b: seq<KeyEvent>)
    requires |table.modifierNames| == 32
    ensures SequenceText(table, []) == "" && SequenceText(table, [] + b) == "" + SequenceText(table, b)
  {
    hide EventText;
    assert [] + b == b && "" + SequenceText(table, b) == SequenceText(table, b);
  }

  lemma OneOff(table: KeyTable, a: seq<KeyEvent>)
    requires |table.modifierNames| == 32 && a != []
    ensures SequenceText(table, a) == Braced(EventText(table, a[0])) + SequenceText(table, a[1..])
  {
    hide EventText, Braced;
  }

  /** A text of one letter stands for itself, any other in braces; no event has no text. */
  lemma OneTells(table: KeyTable, e: KeyEvent)
    requires |table.modifierNames| == 32
    ensures SequenceText(table, []) == ""
    ensures var k := EventText(table, e); SequenceText(table, [e]) == if |k| == 1 then k else "{" + k + "}"
  {
    hide EventText;
    var k := EventText(table, e);
    assert [e][1..] == [] && Braced(k) + "" == Braced(k);
  }

  // ----- parsing -----

  /** The names of modifiers, each with a plus sign, and the name of a key. */
  ghost function Line(names: seq<string>, key: string): string {
    if names == [] then key else names[0] + "+" + Line(names[1..], key)
  }

  ghost predicate Plusless(names: seq<string>, key: string) {
    '+' !in key && forall k :: 0 <= k < |names| ==> '+' !in names[k]
  }

  /** Bit `i` is the first that has this name. */
  ghost predicate FirstNamed(table: KeyTable, name: string, i: nat) {
    && i < |table.modifierNames| && table.modifierNames[i] == Some(name)
    && forall j :: 0 <= j < i ==> table.modifierNames[j] != Some(name)
  }

  /** No bit has this name. */
  ghost predicate Unnamed(table: KeyTable, name: string) {
    forall i :: !FirstNamed(table, name, i)
  }

  ghost predicate NamesSome(table: KeyTable, name: string, bits: Bits) {
    exists i :: i in bits && FirstNamed(table, name, i)
  }

  ghost predicate SomeNames(table: KeyTable, names: seq<string>, i: nat) {
    exists k :: 0 <= k < |names| && FirstNamed(table, names[k], i)
  }

  /** The names are those of the bits. */
  ghost predicate AreNames(table: KeyTable, names: seq<string>, bits: Bits) {
    && (forall k :: 0 <= k < |names| ==> NamesSome(table, names[k], bits))
    && (forall i :: i in bits ==> SomeNames(table, names, i))
  }

  /** The key has this name and is not the void symbol. */
  ghost predicate IsKey(table: KeyTable, key: string, keycode: int) {
    key in table.codes && table.codes[key] == keycode && keycode != 0xffffff
  }

  ghost predicate IsEvent(table: KeyTable, s: string, e: KeyEvent) {
    exists names, key :: s == Line(names, key) && Plusless(names, key) && AreNames(table, names, e.modifier) && IsKey(table, key, e.keycode)
  }

  lemma FoundInside(s: string, c: char)
    requires c in s
    ensures FindChar(s, c, 0) < |s|
  {
    assert s[0..|s|] == s;
  }

  /** A text can be divided in one way at the plus signs. */
  lemma {:induction false} Divided(s: string) returns (names: seq<string>, key: string)
    ensures s == Line(names, key) && Plusless(names, key)
  {
    if '+' in s {
      var m := FindChar(s, '+', 0);
      assert s[0..m] == s[..m];
      FoundInside(s, '+');
      var rest;
      rest, key := Divided(s[m + 1..]);
      names := [s[..m]] + rest;
      assert names[1..] == rest && s == s[..m] + "+" + s[m + 1..];
    } else {
      names, key := [], s;
    }
  }

  /** What is read of a line behind the bits known so far. */
  ghost predicate ReadsLine(table: KeyTable, names: seq<string>, key: string, bits: Bits, r: Option<KeyEvent>) {
    match r
    case Some(e) => IsKey(table, key, e.keycode) && exists more :: AreNames(table, names, more) && e.modifier == bits + more
    case None => (forall c :: !IsKey(table, key, c)) || exists k :: 0 <= k < |names| && Unnamed(table, names[k])
  }

  lemma BitOfTells(table: KeyTable, name: string)
    requires |table.modifierNames| == 32
    ensures table.BitOf(name, 0) < 32 ==> FirstNamed(table, name, table.BitOf(name, 0))
    ensures table.BitOf(name, 0) == 32 ==> Unnamed(table, name)
  {
  }

  lemma KeyTells(table: KeyTable, key: string)
    ensures table.KeycodeByName(key) == 0xffffff <==> forall c :: !IsKey(table, key, c)
    ensures table.KeycodeByName(key) != 0xffffff ==> IsKey(table, key, table.KeycodeByName(key))
  {
    assert !IsKey(table, key, 0xffffff);
    if table.KeycodeByName(key) != 0xffffff { assert IsKey(table, key, table.KeycodeByName(key)); }
  }

  lemma OneMoreName(table: KeyTable, name: string, bit: nat, names: seq<string>, more: Bits)
    requires FirstNamed(table, name, bit) && AreNames(table, names, more)
    ensures AreNames(table, [name] + names, {bit} + more)
  {
    hide FirstNamed;
    var all, bits := [name] + names, {bit} + more;
    forall i | i in bits
      ensures SomeNames(table, all, i)
    {
      if i == bit {
        assert FirstNamed(table, all[0], i);
      } else {
        assert SomeNames(table, names, i);
        SomeNamesOn(table, name, names, i);
      }
    }
    hide SomeNames;
    forall k | 0 <= k < |all|
      ensures NamesSome(table, all[k], bits)
    {
      if k > 0 { NamesSomeOn(table, names[k - 1], bit, more); }
    }
  }

  lemma SomeNamesOn(table: KeyTable, name: string, names: seq<string>, i: nat)
    requires SomeNames(table, names, i)
    ensures SomeNames(table, [name] + names, i)
  {
    hide FirstNamed;
    var k :| 0 <= k < |names| && FirstNamed(table, names[k], i);
    assert ([name] + names)[k + 1] == names[k];
  }

  lemma NamesSomeOn(table: KeyTable, name: string, bit: nat, more: Bits)
    requires NamesSome(table, name, more)
    ensures NamesSome(table, name, {bit} + more)
  {
    hide FirstNamed;
    var i :| i in more && FirstNamed(table, name, i);
    assert i in {bit} + more;
  }

  lemma {:induction false} LineIsRead(table: KeyTable, s: string, start: nat, names: seq<string>, key: string, bits: Bits)
    requires |table.modifierNames| == 32 && start <= |s| && s[start..] == Line(names, key) && Plusless(names, key)
    ensures ReadsLine(table, names, key, bits, Tokens(table, s, start, bits))
    decreases |names|
  {
    hide FirstNamed, IsKey, Tokens, ReadsLine, Unnamed;
    if names == [] {
      LineEnds(table, s, start, key, bits);
    } else {
      var bit, next := FirstToken(table, s, start, names, key, bits);
      hide Line, Plusless;
      if bit < 32 {
        LineIsRead(table, s, next, names[1..], key, bits + {bit});
        LineGoesOn(table, names, key, bits, bit, Tokens(table, s, start, bits));
      } else {
        LineFails(table, names, key, bits);
      }
    }
  }

  /** The first name is read, or no bit has it. */
  lemma FirstToken(table: KeyTable, s: string, start: nat, names: seq<string>, key: string, bits: Bits) returns (bit: nat, next: nat)
    requires |table.modifierNames| == 32 && start <= |s| && names != []
    requires s[start..] == Line(names, key) && Plusless(names, key)
    ensures bit <= 32 && next <= |s| && s[next..] == Line(names[1..], key) && Plusless(names[1..], key)
    ensures bit < 32 ==> FirstNamed(table, names[0], bit) && Tokens(table, s, start, bits) == Tokens(table, s, next, bits + {bit})
    ensures bit == 32 ==> Unnamed(table, names[0]) && Tokens(table, s, start, bits) == None
  {
    hide FirstNamed, Unnamed, Tokens, KeyTable.BitOf;
    TokenAt(s, start, names, key);
    BitOfTells(table, names[0]);
    hide Line;
    bit, next := table.BitOf(names[0], 0), start + |names[0]| + 1;
    TokenIsRead(table, s, start, names[0], bits);
  }

  lemma LineFails(table: KeyTable, names: seq<string>, key: string, bits: Bits)
    requires names != [] && Unnamed(table, names[0])
    ensures ReadsLine(table, names, key, bits, None)
  {
    hide Unnamed, IsKey;
  }

  lemma LineEnds(table: KeyTable, s: string, start: nat, key: string, bits: Bits)
    requires |table.modifierNames| == 32 && start <= |s| && s[start..] == key && '+' !in key
    ensures ReadsLine(table, [], key, bits, Tokens(table, s, start, bits))
  {
    assert s[start..|s|] == key;
    FindsChar(s, '+', start, |s|);
    KeyTells(table, key);
    hide IsKey, FindChar, KeyTable.KeycodeByName;
    assert bits + {} == bits && AreNames(table, [], {});
  }

  lemma TokenIsRead(table: KeyTable, s: string, start: nat, name: string, bits: Bits)
    requires |table.modifierNames| == 32 && start + |name| < |s|
    requires s[start..start + |name|] == name && s[start + |name|] == '+' && '+' !in name
    ensures var bit := table.BitOf(name, 0);
            Tokens(table, s, start, bits) == if bit == 32 then None else Tokens(table, s, start + |name| + 1, bits + {bit})
  {
    hide FindChar, KeyTable.BitOf, KeyTable.KeycodeByName;
    if table.BitOf(name, 0) == 32 {
      FindsChar(s, '+', start, start + |name|);
    } else {
      hide Tokens;
      ReadToken(table, s, start, name, bits);
    }
  }

  lemma LineGoesOn(table: KeyTable, names: seq<string>, key: string, bits: Bits, bit: nat, r: Option<KeyEvent>)
    requires names != [] && FirstNamed(table, names[0], bit) && ReadsLine(table, names[1..], key, bits + {bit}, r)
    ensures ReadsLine(table, names, key, bits, r)
  {
    hide FirstNamed, IsKey, AreNames;
    match r
    case Some(e) =>
      var more :| AreNames(table, names[1..], more) && e.modifier == bits + {bit} + more;
      OneMoreName(table, names[0], bit, names[1..], more);
      assert [names[0]] + names[1..] == names && bits + {bit} + more == bits + ({bit} + more);
    case None =>
      if k :| 0 <= k < |names[1..]| && Unnamed(table, names[1..][k]) { assert Unnamed(table, names[k + 1]); }
  }

  lemma TokenAt(s: string, start: nat, names: seq<string>, key: string)
    requires start <= |s| && names != [] && s[start..] == Line(names, key)
    ensures start + |names[0]| < |s| && s[start..start + |names[0]|] == names[0] && s[start + |names[0]|] == '+'
    ensures s[start + |names[0]| + 1..] == Line(names[1..], key)
  {
    var name, rest := names[0], Line(names[1..], key);
    var t := s[start..];
    assert t == name + "+" + rest;
    assert t[..|name|] == name && t[|name|] == '+' && t[|name| + 1..] == rest;
    assert s[start..start + |name|] == t[..|name|] && s[start + |name| + 1..] == t[|name| + 1..];
  }

  lemma NamesAreIn(table: KeyTable, names: seq<string>, a: Bits, b: Bits)
    requires AreNames(table, names, a) && AreNames(table, names, b)
    ensures a <= b
  {
    hide FirstNamed;
    forall i | i in a ensures i in b {
      assert SomeNames(table, names, i);
      var k :| 0 <= k < |names| && FirstNamed(table, names[k], i);
      assert NamesSome(table, names[k], b);
      var j :| j in b && FirstNamed(table, names[k], j);
      OneFirst(table, names[k], i, j);
    }
  }

  lemma OneFirst(table: KeyTable, name: string, i: nat, j: nat)
    requires FirstNamed(table, name, i) && FirstNamed(table, name, j)
    ensures i == j
  {
  }

  lemma OnePlus(s: string, m: nat, n: nat)
    requires m < |s| && n < |s| && s[m] == s[n] == '+' && '+' !in s[0..m] && '+' !in s[0..n]
    ensures m == n
  {
    assert forall i :: 0 <= i < m ==> s[0..m][i] == s[i];
    assert forall i :: 0 <= i < n ==> s[0..n][i] == s[i];
  }

  lemma {:induction false} LineIsOne(names: seq<string>, key: string, others: seq<string>, other: string)
    requires Plusless(names, key) && Plusless(others, other) && Line(names, key) == Line(others, other)
    ensures names == others && key == other
  {
    var s := Line(names, key);
    assert s[0..] == s;
    if names != [] { TokenAt(s, 0, names, key); assert s[|names[0]|] in s; }
    if others != [] { TokenAt(s, 0, others, other); assert s[|others[0]|] in s; }
    if names != [] && others != [] {
      var m, n := |names[0]|, |others[0]|;
      assert s[0..m] == names[0] && s[0..n] == others[0];
      OnePlus(s, m, n);
      LineIsOne(names[1..], key, others[1..], other);
      assert names == [names[0]] + names[1..] && others == [others[0]] + others[1..];
    }
  }

  /** Main result: an event is read from a text of several letters exactly if it is a line of
      modifiers' names and the name of a key; one letter is its own code, as a signed byte. */
  lemma ParsedExactly(table: KeyTable, s: string, e: KeyEvent)
    requires |table.modifierNames| == 32
    ensures s == "" ==> Parsed(table, s) == None
    ensures |s| == 1 ==> Parsed(table, s) == Some(KeyEvent(if s[0] as int < 128 then s[0] as int else s[0] as int - 256, {}))
    ensures |s| > 1 ==> (Parsed(table, s) == Some(e) <==> IsEvent(table, s, e))
  {
    if |s| > 1 {
      var names, key := Divided(s);
      assert s[0..] == s;
      LineIsRead(table, s, 0, names, key, {});
      hide Tokens, FirstNamed, IsKey, AreNames, Line, Plusless;
      var r := Tokens(table, s, 0, {});
      if r == Some(e) {
        var more :| AreNames(table, names, more) && e.modifier == {} + more;
        assert {} + more == more;
      }
      if IsEvent(table, s, e) {
        var others, other :| s == Line(others, other) && Plusless(others, other) && AreNames(table, others, e.modifier) && IsKey(table, other, e.keycode);
        LineIsOne(names, key, others, other);
        LineSucceeds(table, names, key, r, e);
      }
    }
  }

  lemma NoneNamed(table: KeyTable, names: seq<string>, k: int, bits: Bits)
    requires 0 <= k < |names| && Unnamed(table, names[k])
    ensures !AreNames(table, names, bits)
  {
    hide FirstNamed;
    assert !NamesSome(table, names[k], bits);
  }

  lemma LineSucceeds(table: KeyTable, names: seq<string>, key: string, r: Option<KeyEvent>, e: KeyEvent)
    requires ReadsLine(table, names, key, {}, r) && AreNames(table, names, e.modifier) && IsKey(table, key, e.keycode)
    ensures r == Some(e)
  {
    hide FirstNamed;
    if r.Some? {
      var more :| AreNames(table, names, more) && r.value.modifier == {} + more;
      NamesAreIn(table, names, more, e.modifier);
      NamesAreIn(table, names, e.modifier, more);
      assert r.value.modifier == e.modifier;
    } else if k :| 0 <= k < |names| && Unnamed(table, names[k]) {
      NoneNamed(table, names, k, e.modifier);
      assert false;
    }
  }

  /** A piece of a sequence: what stands in braces, or one letter; a brace that is not closed fails,
      one at the very end is a letter. */
  lemma PiecesTell(table: KeyTable, s: string, i: nat, m: nat, read: seq<KeyEvent>)
    requires |table.modifierNames| == 32 && i < |s|
    ensures s[i] != '{' || i == |s| - 1 ==>
              SequenceFrom(table, s, i, read)
              == match Parsed(table, [s[i]]) case None => None case Some(e) => SequenceFrom(table, s, i + 1, read + [e])
    ensures s[i] == '{' && i < m < |s| && s[m] == '}' && '}' !in s[i + 1..m] ==>
              SequenceFrom(table, s, i, read)
              == match Parsed(table, s[i + 1..m]) case None => None case Some(e) => SequenceFrom(table, s, m + 1, read + [e])
    ensures s[i] == '{' && i < |s| - 1 && '}' !in s[i + 1..] ==> SequenceFrom(table, s, i, read) == None
    ensures SequenceFrom(table, s, |s|, read) == Some(read)
  {
    hide Parsed;
    assert s[i..i + 1] == [s[i]];
    if s[i] == '{' && i < m < |s| && s[m] == '}' && '}' !in s[i + 1..m] { FindsChar(s, '}', i + 1, m); }
    if s[i] == '{' && i < |s| - 1 && '}' !in s[i + 1..] {
      assert s[i + 1..|s|] == s[i + 1..];
      FindsChar(s, '}', i + 1, |s|);
    }
  }
}
