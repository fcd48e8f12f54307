/**
 A keystroke as it is printed and parsed (crates/warpui_core/src/keymap.rs), in a release build: the
 debug build's panics about the case of letters are not part of this model.
 */
module Keystrokes {
  import opened Wrappers

  datatype Keystroke = Keystroke(ctrl: bool, alt: bool, shift: bool, cmd: bool, meta: bool, key: string)

  /** The names of the keys that print nothing, by length. */
  predicate IsValidSpecialKey(name: string) {
    if |name| == 2 then name in ["up", "f1", "f2", "f3", "f4", "f5", "f6", "f7", "f8", "f9"]
    else if |name| == 3 then
      name in ["end", "tab", "f10", "f11", "f12", "f13", "f14", "f15", "f16", "f17", "f18", "f19", "f20"]
    else if |name| == 4 then name in ["down", "left", "home"]
    else if |name| == 5 then name in ["right", "enter"]
    else if |name| == 6 then name in ["pageup", "insert", "delete", "escape"]
    else name in ["pagedown", "backspace", "numpadenter"]
  }

  const VALID_SPECIAL_KEYS: seq<string> := [
    "up", "down", "left", "right", "home", "end", "pageup", "pagedown", "backspace", "enter", "insert", "delete",
    "escape", "tab", "numpadenter", "f1", "f2", "f3", "f4", "f5", "f6", "f7", "f8", "f9", "f10", "f11", "f12", "f13",
    "f14", "f15", "f16", "f17", "f18", "f19", "f20"]

  predicate IsValidKey(name: string) {
    |name| == 1 || IsValidSpecialKey(name)
  }

  lemma ValidSpecialKeys(name: string)
    ensures IsValidSpecialKey(name) <==> name in VALID_SPECIAL_KEYS
  {
  }

  /** A key is valid exactly when it is one character, or one of the names listed. */
  lemma ValidKeys(name: string)
    ensures IsValidKey(name) <==> |name| == 1 || name in VALID_SPECIAL_KEYS
  {
    hide IsValidSpecialKey, VALID_SPECIAL_KEYS;
    ValidSpecialKeys(name);
  }

  function Modifier(on: bool, name: string): string {
    if on then name + "-" else ""
  }

  function KeyName(key: string): string {
    if key == " " then "space" else key
  }

  function Normalized(k: Keystroke): string {
    Modifier(k.ctrl, "ctrl") + (Modifier(k.alt, "alt") + (Modifier(k.shift, "shift") +
    (Modifier(k.cmd, "cmd") + (Modifier(k.meta, "meta") + KeyName(k.key)))))
  }

  /** The parts between dashes. */
  function SplitDash(s: string): (parts: seq<string>)
    ensures parts != []
  {
    if s == [] then [""]
    else
      var rest := SplitDash(s[1..]);
      if s[0] == '-' then [""] + rest else [[s[0]] + rest[0]] + rest[1..]
  }

  /** What has been seen of a keystroke so far. */
  datatype Seen = Seen(ctrl: bool, alt: bool, shift: bool, cmd: bool, meta: bool, key: Option<string>)

  /** A part that is a modifier or the space key. */
  function Marked(part: string, seen: Seen, isMac: bool): Option<Seen> {
    if part == "ctrl" then Some(seen.(ctrl := true))
    else if part == "alt" then Some(seen.(alt := true))
    else if part == "shift" then Some(seen.(shift := true))
    else if part == "cmd" then Some(seen.(cmd := true))
    else if part == "meta" then Some(seen.(meta := true))
    else if part == "cmdorctrl" then Some(if isMac then seen.(cmd := true) else seen.(ctrl := true))
    else if part == "space" then Some(seen.(key := Some(" ")))
    else None
  }

  function Finish(seen: Seen): Option<Keystroke> {
    if seen.key.None? then None
    else Some(Keystroke(seen.ctrl, seen.alt, seen.shift, seen.cmd, seen.meta, seen.key.value))
  }

  predicate EndsInDash(source: string) {
    source != [] && source[|source| - 1] == '-'
  }

  function ParseParts(source: string, parts: seq<string>, seen: Seen, isMac: bool): Option<Keystroke>
    decreases |parts|
  {
    if parts == [] then Finish(seen)
    else
      var part, rest := parts[0], parts[1..];
      if Marked(part, seen, isMac).Some? then
        ParseParts(source, rest, Marked(part, seen, isMac).value, isMac)
      else if rest != [] then
        if rest[0] == "" && EndsInDash(source) then Finish(seen.(key := Some("-"))) else None
      else if IsValidKey(part) then ParseParts(source, rest, seen.(key := Some(part)), isMac)
      else None
  }

  const NOTHING := Seen(false, false, false, false, false, None)

  function Parse(source: string, isMac: bool): Option<Keystroke> {
    ParseParts(source, SplitDash(source), NOTHING, isMac)
  }

  /** The keystrokes that parsing can give. */
  predicate IsValid(k: Keystroke) {
    k.key == " " || k.key == "-" || (IsValidKey(k.key) && '-' !in k.key)
  }

  lemma {:induction false} DashlessParts(s: string)
    ensures forall k :: 0 <= k < |SplitDash(s)| ==> '-' !in SplitDash(s)[k]
  {
    if s != [] {
      DashlessParts(s[1..]);
    }
  }

  predicate KeyIsValid(seen: Seen) {
    seen.key.Some? ==> IsValid(Keystroke(false, false, false, false, false, seen.key.value))
  }

  lemma MarkedIsValid(part: string, seen: Seen, isMac: bool)
    requires KeyIsValid(seen)
    ensures Marked(part, seen, isMac).Some? ==> KeyIsValid(Marked(part, seen, isMac).value)
  {
    hide IsValidKey;
    var m := Marked(part, seen, isMac);
    assert m.Some? ==> m.value.key == seen.key || m.value.key == Some(" ");
  }

  lemma {:induction false} OnlyValidIsParsed(source: string, parts: seq<string>, seen: Seen, isMac: bool)
    requires forall k :: 0 <= k < |parts| ==> '-' !in parts[k]
    requires KeyIsValid(seen)
    ensures ParseParts(source, parts, seen, isMac).Some? ==>
              IsValid(ParseParts(source, parts, seen, isMac).value)
    decreases |parts|
  {
    hide Marked, IsValidKey;
    if parts != [] {
      var part, rest := parts[0], parts[1..];
      MarkedIsValid(part, seen, isMac);
      if Marked(part, seen, isMac).Some? {
        OnlyValidIsParsed(source, rest, Marked(part, seen, isMac).value, isMac);
      } else if rest == [] && IsValidKey(part) {
        OnlyValidIsParsed(source, rest, seen.(key := Some(part)), isMac);
      }
    }
  }

  lemma {:induction false} PartsComeFromTheSource(s: string)
    ensures forall k, i :: 0 <= k < |SplitDash(s)| && 0 <= i < |SplitDash(s)[k]| ==> SplitDash(s)[k][i] in s
  {
    if s != [] {
      PartsComeFromTheSource(s[1..]);
      var rest := SplitDash(s[1..]);
      forall k, i | 0 <= k < |SplitDash(s)| && 0 <= i < |SplitDash(s)[k]|
        ensures SplitDash(s)[k][i] in s
      {
        if s[0] == '-' {
          assert SplitDash(s)[k] == if k == 0 then "" else rest[k - 1];
        } else if k == 0 {
          assert i > 0 ==> SplitDash(s)[k][i] == rest[0][i - 1];
        } else {
          assert SplitDash(s)[k] == rest[k];
        }
      }
    }
  }

  lemma {:induction false} KeyIsAPart(source: string, parts: seq<string>, seen: Seen, isMac: bool)
    requires seen.key.Some? ==> seen.key.value == " "
    ensures var r := ParseParts(source, parts, seen, isMac);
            r.Some? ==> r.value.key == " " || r.value.key == "-" || r.value.key in parts
    decreases |parts|
  {
    hide IsValidKey;
    if parts != [] && Marked(parts[0], seen, isMac).Some? {
      KeyIsAPart(source, parts[1..], Marked(parts[0], seen, isMac).value, isMac);
    }
  }

  /** A parsed key is the space bar, the dash, or made of characters of the source. */
  lemma KeyComesFromTheSource(source: string, isMac: bool)
    ensures var r := Parse(source, isMac);
            r.Some? ==> r.value.key == " " || r.value.key == "-" || forall c :: c in r.value.key ==> c in source
  {
    hide SplitDash, ParseParts;
    PartsComeFromTheSource(source);
    KeyIsAPart(source, SplitDash(source), NOTHING, isMac);
  }

  /** A dashless word and a dash in front are one more part. */
  lemma {:induction false} SplitWord(word: string, rest: string)
    requires '-' !in word
    ensures SplitDash(word + "-" + rest) == [word] + SplitDash(rest)
  {
    var s := word + "-" + rest;
    if word == [] {
      assert s[1..] == rest;
    } else {
      assert s[1..] == word[1..] + "-" + rest;
      SplitWord(word[1..], rest);
      assert [word[0]] + word[1..] == word;
    }
  }

  lemma {:induction false} SplitLast(word: string)
    requires '-' !in word
    ensures SplitDash(word) == [word]
  {
    if word != [] {
      SplitLast(word[1..]);
      assert [word[0]] + word[1..] == word;
    }
  }

  function With(seen: Seen, on: bool, name: string): Seen {
    if !on then seen
    else if name == "ctrl" then seen.(ctrl := true)
    else if name == "alt" then seen.(alt := true)
    else if name == "shift" then seen.(shift := true)
    else if name == "cmd" then seen.(cmd := true)
    else seen.(meta := true)
  }

  lemma ParseModifier(source: string, on: bool, name: string, rest: string, seen: Seen, isMac: bool)
    requires name in ["ctrl", "alt", "shift", "cmd", "meta"]
    ensures ParseParts(source, SplitDash(Modifier(on, name) + rest), seen, isMac) ==
            ParseParts(source, SplitDash(rest), With(seen, on, name), isMac)
  {
    if on {
      SplitWord(name, rest);
      assert Modifier(on, name) + rest == name + "-" + rest;
      assert ([name] + SplitDash(rest))[1..] == SplitDash(rest);
    } else {
      assert Modifier(on, name) + rest == rest;
    }
  }

  /** No valid key has a name that parsing, or the keybinding file, uses for something else. */
  lemma ReservedNames()
    ensures !IsValidKey("ctrl") && !IsValidKey("meta") && !IsValidKey("none")
    ensures !IsValidKey("alt") && !IsValidKey("cmd")
    ensures !IsValidKey("shift") && !IsValidKey("space")
    ensures !IsValidKey("cmdorctrl")
  {
    assert "ctrl"[1] == 't' && "meta"[1] == 'e' && "none"[0] == 'n';
    assert "down"[0] == 'd' && "left"[0] == 'l' && "home"[0] == 'h';
    assert "shift"[0] == 's' && "space"[0] == 's' && "right"[0] == 'r' && "enter"[0] == 'e';
    assert "cmdorctrl"[0] == 'c' && "backspace"[0] == 'b';
  }

  lemma ValidKeysAreNotMarks(key: string, seen: Seen, isMac: bool)
    requires IsValidKey(key)
    ensures Marked(key, seen, isMac).None?
  {
    hide IsValidKey;
    ReservedNames();
  }

  lemma ParseKey(source: string, key: string, seen: Seen, isMac: bool)
    requires IsValid(Keystroke(false, false, false, false, false, key))
    requires key == "-" ==> EndsInDash(source)
    ensures ParseParts(source, SplitDash(KeyName(key)), seen, isMac) == Finish(seen.(key := Some(key)))
  {
    hide IsValidKey, EndsInDash;
    if key == "-" {
      SplitWord("", "");
      assert "" + "-" + "" == "-";
      assert SplitDash("-") == ["", ""];
    } else if key == " " {
      SplitLast("space");
      assert ["space"][1..] == [];
    } else {
      hide Marked;
      SplitLast(key);
      ValidKeysAreNotMarks(key, seen, isMac);
      assert [key][1..] == [];
    }
  }

  lemma SeenAll(k: Keystroke)
    ensures With(With(With(With(With(NOTHING, k.ctrl, "ctrl"), k.alt, "alt"), k.shift, "shift"), k.cmd, "cmd"),
                 k.meta, "meta") == Seen(k.ctrl, k.alt, k.shift, k.cmd, k.meta, None)
  {
    assert "alt" != "ctrl" && "shift" != "ctrl" && "cmd" != "ctrl" && "meta" != "ctrl";
    assert "shift" != "alt" && "cmd" != "alt" && "meta" != "alt";
    assert "cmd" != "shift" && "meta" != "shift" && "meta" != "cmd";
  }

  lemma ParsePrinted(source: string, k: Keystroke, isMac: bool)
    requires IsValid(k) && (k.key == "-" ==> EndsInDash(source))
    ensures ParseParts(source, SplitDash(Normalized(k)), NOTHING, isMac) == Some(k)
  {
    hide SplitDash, ParseParts, IsValidKey, With, Modifier, KeyName, EndsInDash;
    var s5 := KeyName(k.key);
    var s4 := Modifier(k.meta, "meta") + s5;
    var s3 := Modifier(k.cmd, "cmd") + s4;
    var s2 := Modifier(k.shift, "shift") + s3;
    var s1 := Modifier(k.alt, "alt") + s2;
    var a := With(NOTHING, k.ctrl, "ctrl");
    var b := With(a, k.alt, "alt");
    var c := With(b, k.shift, "shift");
    var d := With(c, k.cmd, "cmd");
    ParseModifier(source, k.ctrl, "ctrl", s1, NOTHING, isMac);
    ParseModifier(source, k.alt, "alt", s2, a, isMac);
    ParseModifier(source, k.shift, "shift", s3, b, isMac);
    ParseModifier(source, k.cmd, "cmd", s4, c, isMac);
    ParseModifier(source, k.meta, "meta", s5, d, isMac);
    SeenAll(k);
    ParseKey(source, k.key, With(d, k.meta, "meta"), isMac);
  }

  lemma PrintedEndsInItsKey(k: Keystroke)
    requires k.key == "-"
    ensures EndsInDash(Normalized(k))
  {
    hide Modifier;
  }

  /** Parsing a printed keystroke gives it back exactly when parsing can give it at all. */
  lemma ParsesBack(k: Keystroke, isMac: bool)
    ensures Parse(Normalized(k), isMac) == Some(k) <==> IsValid(k)
  {
    hide SplitDash, ParseParts, IsValid, Normalized;
    if IsValid(k) {
      if k.key == "-" {
        PrintedEndsInItsKey(k);
      }
      ParsePrinted(Normalized(k), k, isMac);
    } else {
      var parts := SplitDash(Normalized(k));
      DashlessParts(Normalized(k));
      OnlyValidIsParsed(Normalized(k), parts, NOTHING, isMac);
    }
  }

  lemma ParsedIsValid(source: string, isMac: bool)
    ensures Parse(source, isMac).Some? ==> IsValid(Parse(source, isMac).value)
  {
    DashlessParts(source);
    OnlyValidIsParsed(source, SplitDash(source), NOTHING, isMac);
  }

  /** NOTHING parses from the word that stands for a removed keybinding. */
  lemma NoneIsNoKeystroke(isMac: bool)
    ensures Parse("none", isMac).None?
  {
    hide IsValidKey;
    ReservedNames();
    SplitLast("none");
    assert ["none"][1..] == [];
  }

  // Which sources are printed as they are written.

  /** The modifiers, in the order in which they are printed. */
  const MODIFIERS: seq<string> := ["ctrl", "alt", "shift", "cmd", "meta"]

  ghost predicate IsKeyName(part: string) {
    part == "space" || (IsValidKey(part) && part != " ")
  }

  /** The parts of a source from modifier number `from` on: modifiers in print order, none of them twice,
      and then the name of a key, or the dash. */
  ghost predicate InPrintOrder(parts: seq<string>, from: nat) {
    if parts == [] then false
    else if |parts| == 1 then IsKeyName(parts[0])
    else if parts[0] == "" then parts == ["", ""]
    else exists m :: from <= m < |MODIFIERS| && parts[0] == MODIFIERS[m] && InPrintOrder(parts[1..], m + 1)
  }

  ghost predicate IsOn(k: Keystroke, m: nat)
    requires m < |MODIFIERS|
  {
    match m
    case 0 => k.ctrl
    case 1 => k.alt
    case 2 => k.shift
    case 3 => k.cmd
    case _ => k.meta
  }

  ghost function TurnedOn(k: Keystroke, m: nat): Keystroke
    requires m < |MODIFIERS|
  {
    match m
    case 0 => k.(ctrl := true)
    case 1 => k.(alt := true)
    case 2 => k.(shift := true)
    case 3 => k.(cmd := true)
    case _ => k.(meta := true)
  }

  /** What is printed from modifier number `from` on. */
  ghost function PrintedFrom(k: Keystroke, from: nat): string
    requires from <= |MODIFIERS|
    decreases |MODIFIERS| - from
  {
    if from == |MODIFIERS| then KeyName(k.key)
    else Modifier(IsOn(k, from), MODIFIERS[from]) + PrintedFrom(k, from + 1)
  }

  lemma PrintedFromTheFirst(k: Keystroke)
    ensures PrintedFrom(k, 0) == Normalized(k)
  {
    hide Modifier, KeyName;
    assert PrintedFrom(k, 5) == KeyName(k.key);
    assert PrintedFrom(k, 4) == Modifier(k.meta, "meta") + PrintedFrom(k, 5);
    assert PrintedFrom(k, 3) == Modifier(k.cmd, "cmd") + PrintedFrom(k, 4);
    assert PrintedFrom(k, 2) == Modifier(k.shift, "shift") + PrintedFrom(k, 3);
    assert PrintedFrom(k, 1) == Modifier(k.alt, "alt") + PrintedFrom(k, 2);
    assert PrintedFrom(k, 0) == Modifier(k.ctrl, "ctrl") + PrintedFrom(k, 1);
  }

  lemma MayStartEarlier(parts: seq<string>, from: nat)
    requires InPrintOrder(parts, from + 1)
    ensures InPrintOrder(parts, from)
  {
  }

  lemma ModifiersAreWords()
    ensures forall m :: 0 <= m < |MODIFIERS| ==> MODIFIERS[m] != "" && '-' !in MODIFIERS[m]
  {
  }

  lemma KeyIsInPrintOrder(k: Keystroke)
    requires IsValid(k)
    ensures InPrintOrder(SplitDash(KeyName(k.key)), |MODIFIERS|)
  {
    hide IsValidKey;
    if k.key == "-" {
      SplitWord("", "");
      assert "" + "-" + "" == "-";
    } else if k.key == " " {
      SplitLast("space");
    } else {
      SplitLast(k.key);
    }
  }

  lemma PrintedModifier(k: Keystroke, from: nat)
    requires from < |MODIFIERS|
    ensures PrintedFrom(k, from) ==
            if IsOn(k, from) then MODIFIERS[from] + "-" + PrintedFrom(k, from + 1) else PrintedFrom(k, from + 1)
  {
    assert Modifier(false, MODIFIERS[from]) + PrintedFrom(k, from + 1) == PrintedFrom(k, from + 1);
  }

  lemma {:induction false} PrintedIsInPrintOrder(k: Keystroke, from: nat)
    requires IsValid(k) && from <= |MODIFIERS|
    ensures InPrintOrder(SplitDash(PrintedFrom(k, from)), from)
    decreases |MODIFIERS| - from
  {
    hide IsValid, SplitDash, InPrintOrder, PrintedFrom, IsOn;
    if from == |MODIFIERS| {
      PrintedKey(k);
      KeyIsInPrintOrder(k);
    } else {
      PrintedIsInPrintOrder(k, from + 1);
      PrintedModifier(k, from);
      OneMoreModifier(PrintedFrom(k, from + 1), from);
      MayStartEarlier(SplitDash(PrintedFrom(k, from + 1)), from);
    }
  }

  lemma PrintedKey(k: Keystroke)
    ensures PrintedFrom(k, |MODIFIERS|) == KeyName(k.key)
  {
  }

  lemma OneMoreModifier(rest: string, m: nat)
    requires m < |MODIFIERS| && InPrintOrder(SplitDash(rest), m + 1)
    ensures InPrintOrder(SplitDash(MODIFIERS[m] + "-" + rest), m)
  {
    hide SplitDash;
    ModifiersAreWords();
    SplitWord(MODIFIERS[m], rest);
    assert ([MODIFIERS[m]] + SplitDash(rest))[1..] == SplitDash(rest);
  }

  /** The first of several parts, and the dash after it. */
  lemma {:induction false} SplitFirst(s: string)
    requires |SplitDash(s)| > 1
    ensures var n := |SplitDash(s)[0]|;
            && n < |s| && s == SplitDash(s)[0] + "-" + s[n + 1..]
            && SplitDash(s[n + 1..]) == SplitDash(s)[1..]
  {
    if s[0] != '-' {
      SplitFirst(s[1..]);
      var n := |SplitDash(s[1..])[0]|;
      assert s[1..][n + 1..] == s[n + 2..];
    }
  }

  lemma {:induction false} SplitOnly(s: string)
    requires |SplitDash(s)| == 1
    ensures SplitDash(s) == [s]
  {
    if s != [] {
      SplitOnly(s[1..]);
      assert [s[0]] + s[1..] == s;
    }
  }

  lemma {:induction false} SameFlagsPrintTheSame(k: Keystroke, l: Keystroke, from: nat)
    requires from <= |MODIFIERS| && k.key == l.key
    requires forall m :: from <= m < |MODIFIERS| ==> IsOn(k, m) == IsOn(l, m)
    ensures PrintedFrom(k, from) == PrintedFrom(l, from)
    decreases |MODIFIERS| - from
  {
    if from < |MODIFIERS| {
      SameFlagsPrintTheSame(k, l, from + 1);
    }
  }

  lemma {:induction false} OffFlagsPrintNothing(k: Keystroke, from: nat, end: nat)
    requires from <= end <= |MODIFIERS|
    requires forall m :: from <= m < end ==> !IsOn(k, m)
    ensures PrintedFrom(k, from) == PrintedFrom(k, end)
    decreases end - from
  {
    if from < end {
      OffFlagsPrintNothing(k, from + 1, end);
      assert Modifier(false, MODIFIERS[from]) + PrintedFrom(k, from + 1) == PrintedFrom(k, from + 1);
    }
  }

  ghost predicate OffBefore(k: Keystroke, from: nat) {
    forall m :: 0 <= m < from && m < |MODIFIERS| ==> !IsOn(k, m)
  }

  /** A source in print order is the print of a keystroke. */
  lemma {:induction false} ReadInPrintOrder(s: string, from: nat) returns (k: Keystroke)
    requires from <= |MODIFIERS| && InPrintOrder(SplitDash(s), from)
    ensures IsValid(k) && OffBefore(k, from) && PrintedFrom(k, from) == s
    decreases |s|
  {
    hide SplitDash, IsValidKey;
    var parts := SplitDash(s);
    if |parts| == 1 {
      SplitOnly(s);
      DashlessParts(s);
      k := Keystroke(false, false, false, false, false, if s == "space" then " " else s);
      ReservedNames();
      OffFlagsPrintNothing(k, from, |MODIFIERS|);
    } else if parts[0] == "" {
      SplitFirst(s);
      SplitOnly(s[1..]);
      k := Keystroke(false, false, false, false, false, "-");
      OffFlagsPrintNothing(k, from, |MODIFIERS|);
    } else {
      var m :| from <= m < |MODIFIERS| && parts[0] == MODIFIERS[m] && InPrintOrder(parts[1..], m + 1);
      SplitFirst(s);
      var rest := s[|parts[0]| + 1..];
      var l := ReadInPrintOrder(rest, m + 1);
      k := TurnedOn(l, m);
      PrintedWithOneMore(l, from, m);
    }
  }

  lemma PrintedWithOneMore(l: Keystroke, from: nat, m: nat)
    requires from <= m < |MODIFIERS| && OffBefore(l, m + 1)
    ensures var k := TurnedOn(l, m);
            k.key == l.key && OffBefore(k, m) && PrintedFrom(k, from) == MODIFIERS[m] + "-" + PrintedFrom(l, m + 1)
  {
    var k := TurnedOn(l, m);
    assert IsOn(k, m) && forall n :: 0 <= n < |MODIFIERS| && n != m ==> IsOn(k, n) == IsOn(l, n);
    SameFlagsPrintTheSame(k, l, m + 1);
    OffFlagsPrintNothing(k, from, m);
  }

  /** A source parses, and is printed as it is written, exactly when it has its modifiers in print order,
      none twice and none by another name, and then the name of a key. */
  lemma PrintsBack(source: string, isMac: bool)
    ensures (Parse(source, isMac).Some? && Normalized(Parse(source, isMac).value) == source)
            <==> InPrintOrder(SplitDash(source), 0)
  {
    hide SplitDash, Parse, Normalized, IsValid, PrintedFrom, InPrintOrder;
    if InPrintOrder(SplitDash(source), 0) {
      var k := ReadInPrintOrder(source, 0);
      PrintedFromTheFirst(k);
      ParsesBack(k, isMac);
    }
    if Parse(source, isMac).Some? && Normalized(Parse(source, isMac).value) == source {
      var k := Parse(source, isMac).value;
      ParsedIsValid(source, isMac);
      PrintedFromTheFirst(k);
      PrintedIsInPrintOrder(k, 0);
    }
  }

  lemma SplitTwoModifiers(first: string, second: string, rest: string)
    requires '-' !in first && '-' !in second
    ensures SplitDash(first + "-" + (second + "-" + rest)) == [first, second] + SplitDash(rest)
  {
    SplitWord(second, rest);
    SplitWord(first, second + "-" + rest);
  }

  /** Modifiers in another order parse, and are printed in print order. */
  lemma OtherOrderIsPrintedOtherwise(isMac: bool)
    ensures Parse("shift-ctrl-A", isMac) == Some(Keystroke(true, false, true, false, false, "A"))
    ensures Normalized(Keystroke(true, false, true, false, false, "A")) == "ctrl-shift-A"
    ensures "ctrl-shift-A" != "shift-ctrl-A"
  {
    hide IsValidKey, SplitDash;
    var source := "shift-ctrl-A";
    SplitTwoModifiers("shift", "ctrl", "A");
    SplitLast("A");
    assert source == "shift" + "-" + ("ctrl" + "-" + "A");
    var parts := ["shift", "ctrl", "A"];
    assert SplitDash(source) == parts;
    assert parts[1..] == ["ctrl", "A"] && parts[1..][1..] == ["A"] && parts[1..][1..][1..] == [];
    var shifted := NOTHING.(shift := true);
    assert ParseParts(source, parts, NOTHING, isMac) == ParseParts(source, ["ctrl", "A"], shifted, isMac);
    ASourceOfOneCharacter(source, shifted.(ctrl := true), isMac);
    assert ParseParts(source, ["ctrl", "A"], shifted, isMac) ==
           ParseParts(source, ["A"], shifted.(ctrl := true), isMac);
    var k := Keystroke(true, false, true, false, false, "A");
    assert Normalized(k) == "ctrl-" + ("" + ("shift-" + ("" + ("" + "A"))));
    assert "ctrl-shift-A"[0] == 'c';
  }

  lemma ASourceOfOneCharacter(source: string, seen: Seen, isMac: bool)
    ensures ParseParts(source, ["A"], seen, isMac) == Finish(seen.(key := Some("A")))
  {
    assert IsValidKey("A");
    ValidKeysAreNotMarks("A", seen, isMac);
    assert ["A"][1..] == [];
  }

  // What every source parses to.

  predicate IsMark(part: string) {
    part in ["ctrl", "alt", "shift", "cmd", "meta", "cmdorctrl", "space"]
  }

  /** How many parts at the front are modifiers or the space key. */
  ghost function Marks(parts: seq<string>): (m: nat)
    ensures m <= |parts|
  {
    if parts == [] || !IsMark(parts[0]) then 0 else 1 + Marks(parts[1..])
  }

  /** The key of some parts: after the marks a valid key, or the dash where an empty part follows and the
      source ends in a dash, or else the space bar. */
  ghost function KeyOf(source: string, parts: seq<string>, space: bool): Option<string> {
    var m := Marks(parts);
    if m == |parts| then (if space || "space" in parts then Some(" ") else None)
    else if m == |parts| - 1 then (if IsValidKey(parts[m]) then Some(parts[m]) else None)
    else if parts[m + 1] == "" && EndsInDash(source) then Some("-")
    else None
  }

  /** A modifier is on when it is among the marks, by its own name or, on the one system, by the other. */
  ghost predicate IsAmong(parts: seq<string>, name: string, other: bool) {
    name in parts[..Marks(parts)] || (other && "cmdorctrl" in parts[..Marks(parts)])
  }

  lemma MarkedFlags(part: string, seen: Seen, isMac: bool)
    ensures Marked(part, seen, isMac).Some? <==> IsMark(part)
    ensures IsMark(part) ==>
              Marked(part, seen, isMac).value ==
              Seen(seen.ctrl || part == "ctrl" || (!isMac && part == "cmdorctrl"), seen.alt || part == "alt",
                   seen.shift || part == "shift", seen.cmd || part == "cmd" || (isMac && part == "cmdorctrl"),
                   seen.meta || part == "meta", if part == "space" then Some(" ") else seen.key)
  {
    assert "ctrl"[0] == 'c' && "alt"[0] == 'a' && "shift"[1] == 'h' && "cmd"[1] == 'm' && "meta"[0] == 'm';
    assert "space"[1] == 'p' && |"cmdorctrl"| == 9 && |"ctrl"| == 4 && |"cmd"| == 3;
  }

  lemma AmongFirst(parts: seq<string>, name: string, other: bool)
    requires parts != [] && IsMark(parts[0])
    ensures IsAmong(parts, name, other) <==>
            parts[0] == name || (other && parts[0] == "cmdorctrl") || IsAmong(parts[1..], name, other)
  {
    hide IsMark;
    var m := Marks(parts[1..]);
    assert Marks(parts) == m + 1;
    assert parts[..m + 1] == [parts[0]] + parts[1..][..m];
  }

  lemma AmongNone(parts: seq<string>, name: string, other: bool)
    requires parts == [] || !IsMark(parts[0])
    ensures !IsAmong(parts, name, other)
  {
  }

  lemma KeyAfterAMark(source: string, parts: seq<string>, space: bool)
    requires parts != [] && IsMark(parts[0])
    ensures KeyOf(source, parts, space) == KeyOf(source, parts[1..], space || parts[0] == "space")
  {
    hide IsMark, IsValidKey, EndsInDash;
    assert Marks(parts) == Marks(parts[1..]) + 1;
    assert parts == [parts[0]] + parts[1..];
  }

  ghost predicate OnlySpaceSoFar(seen: Seen) {
    seen.key.Some? ==> seen.key.value == " "
  }

  /** The modifiers seen so far and those among the marks, with a key. */
  ghost function Pressed(parts: seq<string>, seen: Seen, isMac: bool, key: string): Keystroke {
    Keystroke(seen.ctrl || IsAmong(parts, "ctrl", !isMac), seen.alt || IsAmong(parts, "alt", false),
              seen.shift || IsAmong(parts, "shift", false), seen.cmd || IsAmong(parts, "cmd", isMac),
              seen.meta || IsAmong(parts, "meta", false), key)
  }

  lemma PressedAfterAMark(parts: seq<string>, seen: Seen, isMac: bool, key: string)
    requires parts != [] && IsMark(parts[0])
    ensures Marked(parts[0], seen, isMac).Some?
    ensures Pressed(parts, seen, isMac, key) == Pressed(parts[1..], Marked(parts[0], seen, isMac).value, isMac, key)
  {
    hide IsMark, IsAmong, Marked;
    MarkedFlags(parts[0], seen, isMac);
    AmongFirst(parts, "ctrl", !isMac);
    AmongFirst(parts, "alt", false);
    AmongFirst(parts, "shift", false);
    AmongFirst(parts, "cmd", isMac);
    AmongFirst(parts, "meta", false);
  }

  lemma PressedWithoutMarks(parts: seq<string>, seen: Seen, isMac: bool, key: string)
    requires parts == [] || !IsMark(parts[0])
    ensures Pressed(parts, seen, isMac, key) == Keystroke(seen.ctrl, seen.alt, seen.shift, seen.cmd, seen.meta, key)
  {
    hide IsMark, IsAmong;
    AmongNone(parts, "ctrl", !isMac);
    AmongNone(parts, "alt", false);
    AmongNone(parts, "shift", false);
    AmongNone(parts, "cmd", isMac);
    AmongNone(parts, "meta", false);
  }

  lemma {:induction false} WhatPartsParseTo(source: string, parts: seq<string>, seen: Seen, isMac: bool)
    requires OnlySpaceSoFar(seen)
    ensures var key := KeyOf(source, parts, seen.key.Some?);
            ParseParts(source, parts, seen, isMac) ==
            if key.None? then None else Some(Pressed(parts, seen, isMac, key.value))
    decreases |parts|
  {
    hide Marked, IsMark, IsValidKey, EndsInDash, Pressed;
    var key := KeyOf(source, parts, seen.key.Some?);
    if parts == [] || !IsMark(parts[0]) {
      if parts != [] {
        MarkedFlags(parts[0], seen, isMac);
      }
      if key.Some? {
        PressedWithoutMarks(parts, seen, isMac, key.value);
      }
    } else {
      hide KeyOf;
      MarkedFlags(parts[0], seen, isMac);
      WhatPartsParseTo(source, parts[1..], Marked(parts[0], seen, isMac).value, isMac);
      KeyAfterAMark(source, parts, seen.key.Some?);
      if key.Some? {
        PressedAfterAMark(parts, seen, isMac, key.value);
      }
    }
  }

  /** What any source parses to: its modifiers are those among its marks, in any order and however often,
      `cmdorctrl` being `cmd` on the one system and `ctrl` on others; and it parses exactly when it has a key. */
  lemma WhatParses(source: string, isMac: bool)
    ensures var parts := SplitDash(source);
            var key := KeyOf(source, parts, false);
            Parse(source, isMac) ==
            if key.None? then None
            else Some(Keystroke(IsAmong(parts, "ctrl", !isMac), IsAmong(parts, "alt", false),
                                IsAmong(parts, "shift", false), IsAmong(parts, "cmd", isMac),
                                IsAmong(parts, "meta", false), key.value))
  {
    hide SplitDash, ParseParts, KeyOf, IsAmong;
    WhatPartsParseTo(source, SplitDash(source), NOTHING, isMac);
  }

  lemma SameEndParsesAlike(a: string, b: string, parts: seq<string>, seen: Seen, isMac: bool)
    requires EndsInDash(a) == EndsInDash(b)
    ensures ParseParts(a, parts, seen, isMac) == ParseParts(b, parts, seen, isMac)
    decreases |parts|
  {
    hide Marked, IsValidKey, EndsInDash;
    if parts != [] && Marked(parts[0], seen, isMac).Some? {
      SameEndParsesAlike(a, b, parts[1..], Marked(parts[0], seen, isMac).value, isMac);
    }
  }

  lemma MarkInFront(source: string, mark: string, rest: string, seen: Seen, isMac: bool)
    requires Marked(mark, seen, isMac).Some? && '-' !in mark
    ensures ParseParts(source, SplitDash(mark + "-" + rest), seen, isMac) ==
            ParseParts(source, SplitDash(rest), Marked(mark, seen, isMac).value, isMac)
  {
    hide Marked, IsValidKey, SplitDash;
    SplitWord(mark, rest);
    assert ([mark] + SplitDash(rest))[1..] == SplitDash(rest);
  }

  /** `cmdorctrl` is another name for `cmd` on the one system, and for `ctrl` on others. */
  lemma CmdOrCtrl(rest: string, isMac: bool)
    ensures Parse("cmdorctrl-" + rest, isMac) == Parse((if isMac then "cmd-" else "ctrl-") + rest, isMac)
  {
    hide SplitDash, ParseParts;
    var name := if isMac then "cmd" else "ctrl";
    var a, b := "cmdorctrl" + "-" + rest, name + "-" + rest;
    assert "cmdorctrl-" + rest == a && (if isMac then "cmd-" else "ctrl-") + rest == b;
    MarkInFront(a, "cmdorctrl", rest, NOTHING, isMac);
    MarkInFront(b, name, rest, NOTHING, isMac);
    MarkedFlags("cmdorctrl", NOTHING, isMac);
    MarkedFlags(name, NOTHING, isMac);
    assert EndsInDash(a) == EndsInDash(b);
    SameEndParsesAlike(a, b, SplitDash(rest), Marked(name, NOTHING, isMac).value, isMac);
  }
}
