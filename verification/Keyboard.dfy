/**
 How a keybinding is written to the keybindings file and read back (app/src/keyboard.rs).

 The first part holds for any way `show` and `parse` of writing one keystroke that keeps the promise
 `Prints`; the second part is about keystrokes themselves.
 */
module Keyboard {
  import opened Wrappers
  import Keystrokes

  const REMOVED_KEYBINDING_SERIALIZATION: string := "none"

  /** The list of keystrokes is never empty. */
  datatype Keybinding<+K> = Keystrokes(keystrokes: seq<K>) | Removed

  datatype DecodeError = BadKeystroke(token: string) | NoKeystrokes

  /** The characters with the White_Space property. */
  predicate IsWhitespace(c: char) {
    var n := c as int;
    || 0x9 <= n <= 0xD || n == 0x20 || n == 0x85 || n == 0xA0 || n == 0x1680
    || 0x2000 <= n <= 0x200A || n == 0x2028 || n == 0x2029 || n == 0x202F || n == 0x205F || n == 0x3000
  }

  function Join(tokens: seq<string>): string {
    if tokens == [] then ""
    else if |tokens| == 1 then tokens[0]
    else tokens[0] + " " + Join(tokens[1..])
  }

  function WordLength(s: string): (n: nat)
    ensures n <= |s|
    ensures forall k :: 0 <= k < n ==> !IsWhitespace(s[k])
    ensures n < |s| ==> IsWhitespace(s[n])
  {
    if s == [] || IsWhitespace(s[0]) then 0 else 1 + WordLength(s[1..])
  }

  function SplitWhitespace(s: string): seq<string>
    decreases |s|
  {
    if s == [] then []
    else if IsWhitespace(s[0]) then SplitWhitespace(s[1..])
    else [s[..WordLength(s)]] + SplitWhitespace(s[WordLength(s)..])
  }

  function Printed<K>(show: K -> string, keystrokes: seq<K>): seq<string> {
    seq(|keystrokes|, k requires 0 <= k < |keystrokes| => show(keystrokes[k]))
  }

  function Encode<K>(show: K -> string, keybinding: Keybinding<K>): string {
    match keybinding
    case Keystrokes(keystrokes) => Join(Printed(show, keystrokes))
    case Removed => REMOVED_KEYBINDING_SERIALIZATION
  }

  function ParseAll<K>(parse: string -> Option<K>, tokens: seq<string>): Result<seq<K>, DecodeError> {
    if tokens == [] then Ok([])
    else
      match parse(tokens[0])
      case None => Err(BadKeystroke(tokens[0]))
      case Some(k) =>
        match ParseAll(parse, tokens[1..])
        case Ok(ks) => Ok([k] + ks)
        case Err(e) => Err(e)
  }

  function Decode<K>(parse: string -> Option<K>, trigger: string): Result<Keybinding<K>, DecodeError> {
    if trigger == REMOVED_KEYBINDING_SERIALIZATION then Ok(Removed)
    else
      match ParseAll(parse, SplitWhitespace(trigger))
      case Err(e) => Err(e)
      case Ok(ks) => if ks == [] then Err(NoKeystrokes) else Ok(Keystrokes(ks))
  }

  /** A list of keystrokes that some others come before. */
  ghost function After<K>(before: seq<K>, r: Result<seq<K>, DecodeError>): Result<seq<K>, DecodeError> {
    match r
    case Ok(ks) => Ok(before + ks)
    case Err(e) => Err(e)
  }

  lemma AfterNothing<K>(r: Result<seq<K>, DecodeError>)
    ensures After([], r) == r
  {
    assert r.Ok? ==> [] + r.value == r.value;
  }

  /** The decoder as it is written. */
  method DecodeTrigger<K>(parse: string -> Option<K>, trigger: string)
    returns (r: Result<Keybinding<K>, DecodeError>)
    ensures r == Decode(parse, trigger)
  {
    if trigger == REMOVED_KEYBINDING_SERIALIZATION {
      return Ok(Removed);
    }
    var keystrokes: seq<K> := [];
    var tokens := SplitWhitespace(trigger);
    var i := 0;
    AfterNothing(ParseAll(parse, tokens));
    assert tokens[0..] == tokens;
    while i < |tokens|
      invariant 0 <= i <= |tokens|
      invariant ParseAll(parse, tokens) == After(keystrokes, ParseAll(parse, tokens[i..]))
    {
      var parsed := parse(tokens[i]);
      assert tokens[i..][1..] == tokens[i + 1..];
      if parsed.None? {
        return Err(BadKeystroke(tokens[i]));
      }
      if ParseAll(parse, tokens[i + 1..]).Ok? {
        ghost var rest := ParseAll(parse, tokens[i + 1..]).value;
        assert keystrokes + ([parsed.value] + rest) == (keystrokes + [parsed.value]) + rest;
      }
      keystrokes := keystrokes + [parsed.value];
      i := i + 1;
    }
    assert tokens[i..] == [] && keystrokes + [] == keystrokes;
    if keystrokes == [] {
      return Err(NoKeystrokes);
    }
    return Ok(Keystrokes(keystrokes));
  }

  // Tokens.

  ghost predicate IsToken(s: string) {
    s != [] && forall k :: 0 <= k < |s| ==> !IsWhitespace(s[k])
  }

  ghost predicate AreTokens(tokens: seq<string>) {
    forall k :: 0 <= k < |tokens| ==> IsToken(tokens[k])
  }

  lemma {:induction false} SplitGivesTokens(s: string)
    ensures AreTokens(SplitWhitespace(s))
    decreases |s|
  {
    if s != [] {
      if IsWhitespace(s[0]) {
        SplitGivesTokens(s[1..]);
      } else {
        SplitGivesTokens(s[WordLength(s)..]);
      }
    }
  }

  const WHITE_SPACE: seq<int> := [
    0x9, 0xA, 0xB, 0xC, 0xD, 0x20, 0x85, 0xA0, 0x1680, 0x2000, 0x2001, 0x2002, 0x2003, 0x2004, 0x2005, 0x2006, 0x2007,
    0x2008, 0x2009, 0x200A, 0x2028, 0x2029, 0x202F, 0x205F, 0x3000]

  lemma WhiteSpaceIsListed(c: char)
    ensures IsWhitespace(c) <==> c as int in WHITE_SPACE
  {
  }

  lemma {:induction false} WordLengthUpTo(a: string, c: char, b: string)
    requires IsWhitespace(c)
    ensures WordLength(a + [c] + b) == WordLength(a)
  {
    if a != [] && !IsWhitespace(a[0]) {
      assert (a + [c] + b)[1..] == a[1..] + [c] + b;
      WordLengthUpTo(a[1..], c, b);
    }
  }

  /** Any white space separates tokens, and does nothing else, wherever and however often it comes. */
  lemma {:induction false} SplitAtWhiteSpace(a: string, c: char, b: string)
    requires c as int in WHITE_SPACE
    ensures SplitWhitespace(a + [c] + b) == SplitWhitespace(a) + SplitWhitespace(b)
    decreases |a|
  {
    hide IsWhitespace, WHITE_SPACE;
    WhiteSpaceIsListed(c);
    var s := a + [c] + b;
    if a == [] {
      assert s[1..] == b;
    } else if IsWhitespace(a[0]) {
      SplitAtWhiteSpace(a[1..], c, b);
      assert s[1..] == a[1..] + [c] + b;
    } else {
      var n := WordLength(a);
      WordLengthUpTo(a, c, b);
      SplitAtWhiteSpace(a[n..], c, b);
      assert s[..n] == a[..n] && s[n..] == a[n..] + [c] + b;
    }
  }

  /** What has no white space in it is one token. */
  lemma WhatIsOneToken(s: string)
    requires s != [] && forall k :: 0 <= k < |s| ==> s[k] as int !in WHITE_SPACE
    ensures SplitWhitespace(s) == [s]
  {
    hide IsWhitespace, WHITE_SPACE;
    forall k | 0 <= k < |s|
      ensures !IsWhitespace(s[k])
    {
      WhiteSpaceIsListed(s[k]);
    }
    SplitOfJoin([s]);
  }

  lemma {:induction false} WordLengthOf(token: string, rest: string)
    requires forall k :: 0 <= k < |token| ==> !IsWhitespace(token[k])
    requires rest != [] ==> IsWhitespace(rest[0])
    ensures WordLength(token + rest) == |token|
  {
    if token != [] {
      assert (token + rest)[1..] == token[1..] + rest;
      WordLengthOf(token[1..], rest);
    }
  }

  lemma {:induction false} SplitOfJoin(tokens: seq<string>)
    requires AreTokens(tokens)
    ensures SplitWhitespace(Join(tokens)) == tokens
  {
    if |tokens| == 1 {
      var t := tokens[0];
      assert t + [] == t;
      WordLengthOf(t, []);
      assert SplitWhitespace(t[|t|..]) == [];
    } else if |tokens| > 1 {
      var t, more := tokens[0], Join(tokens[1..]);
      assert t + " " + more == t + ([' '] + more);
      WordLengthOf(t, [' '] + more);
      assert (t + ([' '] + more))[..|t|] == t && (t + ([' '] + more))[|t|..] == [' '] + more;
      assert ([' '] + more)[1..] == more;
      SplitOfJoin(tokens[1..]);
    }
  }

  /** Joining puts one space between tokens, and nothing else. */
  lemma {:induction false} JoinPutsSpacesBetween(a: seq<string>, b: seq<string>)
    ensures Join([]) == "" && forall token :: Join([token]) == token
    ensures a != [] && b != [] ==> Join(a + b) == Join(a) + " " + Join(b)
  {
    if |a| == 1 && b != [] {
      assert (a + b)[1..] == b;
    } else if |a| > 1 && b != [] {
      assert (a + b)[1..] == a[1..] + b;
      JoinPutsSpacesBetween(a[1..], b);
      assert a[0] + " " + (Join(a[1..]) + " " + Join(b)) == (a[0] + " " + Join(a[1..])) + " " + Join(b);
    }
  }

  /** What is written for a removed keybinding, for one keystroke, and for more. */
  lemma WhatIsWritten<K>(show: K -> string, first: seq<K>, more: seq<K>)
    ensures Encode(show, Removed) == "none"
    ensures forall k :: Encode(show, Keystrokes([k])) == show(k)
    ensures first != [] && more != [] ==>
              Encode(show, Keystrokes(first + more)) ==
              Encode(show, Keystrokes(first)) + " " + Encode(show, Keystrokes(more))
  {
    forall k
      ensures Encode(show, Keystrokes([k])) == show(k)
    {
      assert Printed(show, [k]) == [show(k)];
    }
    JoinPutsSpacesBetween(Printed(show, first), Printed(show, more));
    assert Printed(show, first + more) == Printed(show, first) + Printed(show, more);
  }

  /** Only the word itself is written like a removed keybinding. */
  lemma JoinIsTheSentinel(tokens: seq<string>)
    requires AreTokens(tokens)
    ensures Join(tokens) == REMOVED_KEYBINDING_SERIALIZATION <==> tokens == [REMOVED_KEYBINDING_SERIALIZATION]
  {
    var none := [REMOVED_KEYBINDING_SERIALIZATION];
    assert AreTokens(none);
    SplitOfJoin(tokens);
    SplitOfJoin(none);
  }

  // Round trips.

  /** What the encoding needs of a keystroke: it prints to a token that parses back. */
  ghost predicate Prints<K>(show: K -> string, parse: string -> Option<K>, k: K) {
    IsToken(show(k)) && parse(show(k)) == Some(k)
  }

  ghost predicate AllPrint<K>(show: K -> string, parse: string -> Option<K>, keybinding: Keybinding<K>) {
    keybinding.Keystrokes? ==>
      keybinding.keystrokes != [] &&
      forall k :: 0 <= k < |keybinding.keystrokes| ==> Prints(show, parse, keybinding.keystrokes[k])
  }

  lemma {:induction false} ParsePrinted<K>(show: K -> string, parse: string -> Option<K>, ks: seq<K>)
    requires forall k :: 0 <= k < |ks| ==> Prints(show, parse, ks[k])
    ensures ParseAll(parse, Printed(show, ks)) == Ok(ks)
  {
    if ks != [] {
      assert Printed(show, ks)[1..] == Printed(show, ks[1..]);
      ParsePrinted(show, parse, ks[1..]);
      assert [ks[0]] + ks[1..] == ks;
    }
  }

  ghost predicate IsTheSentinel<K>(show: K -> string, keybinding: Keybinding<K>) {
    && keybinding.Keystrokes? && |keybinding.keystrokes| == 1
    && show(keybinding.keystrokes[0]) == REMOVED_KEYBINDING_SERIALIZATION
  }

  /** Decoding an encoded keybinding gives it back, except exactly a single keystroke that prints as
      the sentinel. */
  lemma DecodeOfEncode<K>(show: K -> string, parse: string -> Option<K>, keybinding: Keybinding<K>)
    requires AllPrint(show, parse, keybinding)
    ensures Decode(parse, Encode(show, keybinding)) == Ok(keybinding) <==>
            !IsTheSentinel(show, keybinding)
  {
    if keybinding.Keystrokes? {
      var tokens := Printed(show, keybinding.keystrokes);
      JoinIsTheSentinel(tokens);
      SplitOfJoin(tokens);
      ParsePrinted(show, parse, keybinding.keystrokes);
      assert IsTheSentinel(show, keybinding) <==> tokens == [REMOVED_KEYBINDING_SERIALIZATION];
    }
  }

  /** What decoding accepts, and what it says about what it does not: the first bad token is named. */
  lemma {:induction false} ParsesEveryToken<K>(parse: string -> Option<K>, tokens: seq<string>)
    ensures match ParseAll(parse, tokens)
            case Ok(ks) => |ks| == |tokens| && forall k :: 0 <= k < |ks| ==> parse(tokens[k]) == Some(ks[k])
            case Err(e) =>
              exists bad :: 0 <= bad < |tokens| && e == BadKeystroke(tokens[bad]) && parse(tokens[bad]).None?
                            && forall k :: 0 <= k < bad ==> parse(tokens[k]).Some?
  {
    if tokens != [] && parse(tokens[0]).Some? {
      ParsesEveryToken(parse, tokens[1..]);
      match ParseAll(parse, tokens[1..])
      case Ok(_) =>
      case Err(e) =>
        var bad :| 0 <= bad < |tokens| - 1 && e == BadKeystroke(tokens[1..][bad]) && parse(tokens[1..][bad]).None?
                   && forall k :: 0 <= k < bad ==> parse(tokens[1..][k]).Some?;
        assert tokens[bad + 1] == tokens[1..][bad];
        forall k | 0 <= k < bad + 1
          ensures parse(tokens[k]).Some?
        {
          assert k > 0 ==> tokens[k] == tokens[1..][k - 1];
        }
    }
  }

  /** The first token that does not parse. */
  ghost predicate IsFirstBad<K>(parse: string -> Option<K>, tokens: seq<string>, bad: nat) {
    bad < |tokens| && parse(tokens[bad]).None? && forall k :: 0 <= k < bad ==> parse(tokens[k]).Some?
  }

  /** What any trigger decodes to: a removed keybinding exactly from the sentinel; an error that names the
      first token that does not parse, or says that there are no tokens; and else one keystroke for each
      token, in order. */
  lemma WhatDecodes<K>(parse: string -> Option<K>, trigger: string)
    ensures var r, tokens := Decode(parse, trigger), SplitWhitespace(trigger);
            if trigger == "none" then r == Ok(Removed)
            else if tokens == [] then r == Err(NoKeystrokes)
            else if forall k :: 0 <= k < |tokens| ==> parse(tokens[k]).Some? then
              && r.Ok? && r.value.Keystrokes? && |r.value.keystrokes| == |tokens|
              && forall k :: 0 <= k < |tokens| ==> parse(tokens[k]) == Some(r.value.keystrokes[k])
            else exists bad: nat :: IsFirstBad(parse, tokens, bad) && r == Err(BadKeystroke(tokens[bad]))
  {
    hide SplitWhitespace;
    ParsesEveryToken(parse, SplitWhitespace(trigger));
    if ParseAll(parse, SplitWhitespace(trigger)).Err? {
      var tokens := SplitWhitespace(trigger);
      var bad :| 0 <= bad < |tokens| && ParseAll(parse, tokens) == Err(BadKeystroke(tokens[bad]))
                 && parse(tokens[bad]).None? && forall k :: 0 <= k < bad ==> parse(tokens[k]).Some?;
      assert IsFirstBad(parse, tokens, bad);
    }
  }

  /** Each token of the trigger that parses is printed as it is written. */
  ghost predicate IsCanonical<K>(show: K -> string, parse: string -> Option<K>, trigger: string) {
    forall t :: t in SplitWhitespace(trigger) && parse(t).Some? ==> show(parse(t).value) == t
  }

  lemma JoinedAlike(a: seq<string>, b: seq<string>)
    requires AreTokens(a) && AreTokens(b)
    ensures Join(a) == Join(b) <==> a == b
  {
    SplitOfJoin(a);
    SplitOfJoin(b);
  }

  /** Encoding what a trigger decodes to gives its whitespace-normal form exactly when the trigger is the
      sentinel or each of its tokens is printed as it is written. */
  lemma EncodeOfDecode<K>(show: K -> string, parse: string -> Option<K>, trigger: string)
    requires Decode(parse, trigger).Ok? && AllPrint(show, parse, Decode(parse, trigger).value)
    ensures Encode(show, Decode(parse, trigger).value) == Join(SplitWhitespace(trigger)) <==>
            trigger == REMOVED_KEYBINDING_SERIALIZATION || IsCanonical(show, parse, trigger)
  {
    hide Join, SplitWhitespace;
    var tokens := SplitWhitespace(trigger);
    if trigger == REMOVED_KEYBINDING_SERIALIZATION {
      SentinelIsAToken();
    } else {
      ParsesEveryToken(parse, tokens);
      SplitGivesTokens(trigger);
      var printed := Printed(show, ParseAll(parse, tokens).value);
      JoinedAlike(printed, tokens);
      if printed == tokens {
        forall t | t in tokens
          ensures show(parse(t).value) == t
        {
          var k :| 0 <= k < |tokens| && tokens[k] == t;
          assert printed[k] == t;
        }
      } else {
        var k :| 0 <= k < |tokens| && printed[k] != tokens[k];
        assert tokens[k] in tokens;
      }
    }
  }

  lemma SentinelIsAToken()
    ensures Join(SplitWhitespace(REMOVED_KEYBINDING_SERIALIZATION)) == REMOVED_KEYBINDING_SERIALIZATION
  {
    SplitOfJoin([REMOVED_KEYBINDING_SERIALIZATION]);
  }

  /** Encoding once is enough: a trigger that came from the encoder comes out of it unchanged, also
      where the round trip fails. */
  lemma EncodingIsIdempotent<K>(show: K -> string, parse: string -> Option<K>, trigger: string)
    requires Decode(parse, trigger).Ok? && AllPrint(show, parse, Decode(parse, trigger).value)
    ensures var normal := Encode(show, Decode(parse, trigger).value);
            Decode(parse, normal).Ok? && Encode(show, Decode(parse, normal).value) == normal
  {
    var keybinding := Decode(parse, trigger).value;
    DecodeOfEncode(show, parse, keybinding);
    if IsTheSentinel(show, keybinding) {
      var tokens := Printed(show, keybinding.keystrokes);
      JoinIsTheSentinel(tokens);
    }
  }

  // Keystrokes themselves.

  /** Parsing can give it, and its key is not white space other than the space bar. */
  ghost predicate IsWritable(k: Keystrokes.Keystroke) {
    Keystrokes.IsValid(k) && (k.key == " " || forall i :: 0 <= i < |k.key| ==> !IsWhitespace(k.key[i]))
  }

  lemma TokensConcatenate(a: string, b: string)
    requires a == "" || IsToken(a)
    requires IsToken(b)
    ensures IsToken(a + b)
  {
  }

  lemma ModifiersAreTokens(on: bool)
    ensures forall name :: name in ["ctrl", "alt", "shift", "cmd", "meta"] ==>
              var m := Keystrokes.Modifier(on, name); m == "" || IsToken(m)
  {
  }

  lemma WritableKeystrokesPrint(k: Keystrokes.Keystroke, isMac: bool)
    requires IsWritable(k)
    ensures Prints(Keystrokes.Normalized, source => Keystrokes.Parse(source, isMac), k)
    ensures Keystrokes.Normalized(k) != REMOVED_KEYBINDING_SERIALIZATION
  {
    Keystrokes.ParsesBack(k, isMac);
    Keystrokes.NoneIsNoKeystroke(isMac);
    NormalizedIsAToken(k);
  }

  lemma NormalizedIsAToken(k: Keystrokes.Keystroke)
    requires IsWritable(k)
    ensures IsToken(Keystrokes.Normalized(k))
  {
    hide Keystrokes.IsValidKey, IsToken, Keystrokes.Modifier;
    ModifiersAreTokens(true);
    ModifiersAreTokens(false);
    var s5 := Keystrokes.KeyName(k.key);
    var s4 := Keystrokes.Modifier(k.meta, "meta") + s5;
    var s3 := Keystrokes.Modifier(k.cmd, "cmd") + s4;
    var s2 := Keystrokes.Modifier(k.shift, "shift") + s3;
    var s1 := Keystrokes.Modifier(k.alt, "alt") + s2;
    KeyNameIsAToken(k);
    TokensConcatenate(Keystrokes.Modifier(k.meta, "meta"), s5);
    TokensConcatenate(Keystrokes.Modifier(k.cmd, "cmd"), s4);
    TokensConcatenate(Keystrokes.Modifier(k.shift, "shift"), s3);
    TokensConcatenate(Keystrokes.Modifier(k.alt, "alt"), s2);
    TokensConcatenate(Keystrokes.Modifier(k.ctrl, "ctrl"), s1);
  }

  lemma KeyNameIsAToken(k: Keystrokes.Keystroke)
    requires IsWritable(k)
    ensures IsToken(Keystrokes.KeyName(k.key))
  {
  }

  lemma ParsedIsWritable(token: string, isMac: bool)
    requires IsToken(token) && Keystrokes.Parse(token, isMac).Some?
    ensures IsWritable(Keystrokes.Parse(token, isMac).value)
  {
    hide Keystrokes.Parse, Keystrokes.IsValid;
    var k := Keystrokes.Parse(token, isMac).value;
    Keystrokes.KeyComesFromTheSource(token, isMac);
    Keystrokes.ParsedIsValid(token, isMac);
    forall i | k.key != " " && k.key != "-" && 0 <= i < |k.key|
      ensures !IsWhitespace(k.key[i])
    {
      assert k.key[i] in token;
    }
  }

  /** Real keystrokes never print as the sentinel, so the keybindings that survive being written and
      read are exactly those of writable keystrokes. */
  lemma KeybindingsSurvive(keybinding: Keybinding<Keystrokes.Keystroke>, isMac: bool)
    requires keybinding.Keystrokes? ==> keybinding.keystrokes != []
    ensures Decode(source => Keystrokes.Parse(source, isMac), Encode(Keystrokes.Normalized, keybinding)) ==
              Ok(keybinding)
            <==> (keybinding.Keystrokes? ==> forall k :: k in keybinding.keystrokes ==> IsWritable(k))
  {
    hide Keystrokes.Parse, Keystrokes.Normalized, IsWritable;
    var parse := source => Keystrokes.Parse(source, isMac);
    if keybinding.Keystrokes? && forall k :: k in keybinding.keystrokes ==> IsWritable(k) {
      forall k | k in keybinding.keystrokes
        ensures Prints(Keystrokes.Normalized, parse, k)
        ensures Keystrokes.Normalized(k) != REMOVED_KEYBINDING_SERIALIZATION
      {
        WritableKeystrokesPrint(k, isMac);
      }
      DecodeOfEncode(Keystrokes.Normalized, parse, keybinding);
    } else if keybinding.Keystrokes? {
      var tokens := SplitWhitespace(Encode(Keystrokes.Normalized, keybinding));
      ParsesEveryToken(parse, tokens);
      SplitGivesTokens(Encode(Keystrokes.Normalized, keybinding));
      if ParseAll(parse, tokens) == Ok(keybinding.keystrokes) {
        forall i | 0 <= i < |tokens|
          ensures IsWritable(keybinding.keystrokes[i])
        {
          ParsedIsWritable(tokens[i], isMac);
        }
      }
    }
  }

  lemma DecodedIsWritable(trigger: string, isMac: bool)
    requires Decode(source => Keystrokes.Parse(source, isMac), trigger).Ok?
    ensures var keybinding := Decode(source => Keystrokes.Parse(source, isMac), trigger).value;
            keybinding.Keystrokes? ==>
              keybinding.keystrokes != [] && forall k :: k in keybinding.keystrokes ==> IsWritable(k)
  {
    hide Keystrokes.Parse, IsWritable;
    var parse := source => Keystrokes.Parse(source, isMac);
    if trigger != REMOVED_KEYBINDING_SERIALIZATION {
      var tokens := SplitWhitespace(trigger);
      ParsesEveryToken(parse, tokens);
      SplitGivesTokens(trigger);
      var ks := ParseAll(parse, tokens).value;
      forall i | 0 <= i < |ks|
        ensures IsWritable(ks[i])
      {
        ParsedIsWritable(tokens[i], isMac);
      }
    }
  }

  /** A keybinding that was read survives being written and read again, however it was written first; so
      a second round of both changes nothing. */
  lemma ReadKeybindingsSurvive(trigger: string, isMac: bool)
    requires Decode(source => Keystrokes.Parse(source, isMac), trigger).Ok?
    ensures var parse := source => Keystrokes.Parse(source, isMac);
            Decode(parse, Encode(Keystrokes.Normalized, Decode(parse, trigger).value)) == Decode(parse, trigger)
  {
    hide Keystrokes.Parse, Keystrokes.Normalized, IsWritable;
    DecodedIsWritable(trigger, isMac);
    KeybindingsSurvive(Decode(source => Keystrokes.Parse(source, isMac), trigger).value, isMac);
  }

  /** A trigger that decodes is written back in its whitespace-normal form exactly when it is the sentinel
      or every token has its modifiers in print order, none twice and none by another name, and then the
      name of a key. */
  lemma TriggersAreWrittenBack(trigger: string, isMac: bool)
    requires Decode(source => Keystrokes.Parse(source, isMac), trigger).Ok?
    ensures Encode(Keystrokes.Normalized, Decode(source => Keystrokes.Parse(source, isMac), trigger).value) ==
              Join(SplitWhitespace(trigger))
            <==> || trigger == REMOVED_KEYBINDING_SERIALIZATION
                 || forall t :: t in SplitWhitespace(trigger) ==> Keystrokes.InPrintOrder(Keystrokes.SplitDash(t), 0)
  {
    hide Keystrokes.Parse, Keystrokes.Normalized, Keystrokes.InPrintOrder, Keystrokes.SplitDash, IsWritable,
      SplitWhitespace, Join;
    var parse := source => Keystrokes.Parse(source, isMac);
    AllDecodedPrint(trigger, isMac);
    EncodeOfDecode(Keystrokes.Normalized, parse, trigger);
    if trigger != REMOVED_KEYBINDING_SERIALIZATION {
      ParsesEveryToken(parse, SplitWhitespace(trigger));
      forall t | t in SplitWhitespace(trigger)
        ensures parse(t).Some? && (Keystrokes.Normalized(parse(t).value) == t <==>
                                   Keystrokes.InPrintOrder(Keystrokes.SplitDash(t), 0))
      {
        Keystrokes.PrintsBack(t, isMac);
      }
    }
  }

  lemma AllDecodedPrint(trigger: string, isMac: bool)
    requires Decode(source => Keystrokes.Parse(source, isMac), trigger).Ok?
    ensures var parse := source => Keystrokes.Parse(source, isMac);
            AllPrint(Keystrokes.Normalized, parse, Decode(parse, trigger).value)
  {
    hide Keystrokes.Parse, Keystrokes.Normalized, IsWritable, SplitWhitespace, ParseAll, Prints;
    DecodedIsWritable(trigger, isMac);
    var keybinding := Decode(source => Keystrokes.Parse(source, isMac), trigger).value;
    if keybinding.Keystrokes? {
      forall k | 0 <= k < |keybinding.keystrokes|
        ensures Prints(Keystrokes.Normalized, source => Keystrokes.Parse(source, isMac), keybinding.keystrokes[k])
      {
        WritableKeystrokesPrint(keybinding.keystrokes[k], isMac);
      }
    }
  }

  lemma OneToken<K>(show: K -> string, parse: string -> Option<K>, token: string)
    requires IsToken(token) && token != REMOVED_KEYBINDING_SERIALIZATION && parse(token).Some?
    ensures Decode(parse, token) == Ok(Keystrokes([parse(token).value]))
    ensures Encode(show, Decode(parse, token).value) == show(parse(token).value)
  {
    hide SplitWhitespace;
    var k := parse(token).value;
    SplitOfJoin([token]);
    assert SplitWhitespace(token) == [token];
    assert [token][1..] == [] && [k] + [] == [k];
    assert ParseAll(parse, [token]) == Ok([k]);
    assert Printed(show, [k]) == [show(k)];
  }

  /** A trigger that is written back otherwise: its modifiers are not in print order. */
  lemma ModifiersAreReordered(isMac: bool)
    ensures var read := Decode(source => Keystrokes.Parse(source, isMac), "shift-ctrl-A");
            read.Ok? && Encode(Keystrokes.Normalized, read.value) == "ctrl-shift-A"
    ensures "ctrl-shift-A" != "shift-ctrl-A"
  {
    hide Keystrokes.Parse, Keystrokes.Normalized, Decode, Encode;
    assert "shift-ctrl-A"[0] == 's';
    Keystrokes.OtherOrderIsPrintedOtherwise(isMac);
    OneToken(Keystrokes.Normalized, source => Keystrokes.Parse(source, isMac), "shift-ctrl-A");
  }
}
