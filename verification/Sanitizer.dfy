/** Input sanitizing: trim, then cut out scripts, then cut out tags, in every string of a nested value. */
module Sanitizer {
  import opened Regex
  import opened Markup
  import opened JsonValue

  // White space and line terminators (ECMA-262, section 12.2 and 12.3).
  predicate IsSpace(c: char) {
    || '\U{0009}' <= c <= '\U{000D}' || c == ' ' || c == '\U{00A0}' || c == '\U{1680}'
    || '\U{2000}' <= c <= '\U{200A}' || c == '\U{2028}' || c == '\U{2029}' || c == '\U{202F}'
    || c == '\U{205F}' || c == '\U{3000}' || c == '\U{FEFF}'
  }

  function TrimStart(s: string): string {
    if s != "" && IsSpace(s[0]) then TrimStart(s[1..]) else s
  }

  function TrimEnd(s: string): string {
    if s != "" && IsSpace(s[|s|-1]) then TrimEnd(s[..|s|-1]) else s
  }

  function Trim(s: string): string {
    TrimEnd(TrimStart(s))
  }

  predicate Trimmed(s: string) {
    s != "" ==> !IsSpace(s[0]) && !IsSpace(s[|s|-1])
  }

  function SanitizeString(s: string): string {
    RemoveAll(TAG, false, RemoveAll(SCRIPT, true, Trim(s), 0), 0)
  }

  function Sanitize(v: Value): Value {
    match v
    case Undefined => v
    case Null => v
    case Str(s) => Str(SanitizeString(s))
    case Arr(items) => Arr(seq(|items|, i requires 0 <= i < |items| => Sanitize(items[i])))
    case Obj(entries) =>
      Obj(seq(|entries|, i requires 0 <= i < |entries| => Entry(entries[i].key, Sanitize(entries[i].value))))
    case _ => v
  }

  /** The recursive walk as it runs: an object's copy is filled key by key. */
  method SanitizeValue(v: Value) returns (r: Value)
    requires DistinctKeys(v)
    ensures r == Sanitize(v)
    decreases v
  {
    match v {
      case Str(s) => r := Str(SanitizeString(s));
      case Arr(items) =>
        var copies := [];
        for i := 0 to |items|
          invariant |copies| == i && forall k :: 0 <= k < i ==> copies[k] == Sanitize(items[k])
        {
          var copy := SanitizeValue(items[i]);
          copies := copies + [copy];
        }
        r := Arr(copies);
      case Obj(entries) =>
        var record := [];
        for i := 0 to |entries|
          invariant |record| == i
          invariant forall k :: 0 <= k < i ==> record[k] == Entry(entries[k].key, Sanitize(entries[k].value))
        {
          var copy := SanitizeValue(entries[i].value);
          record := SetKey(record, entries[i].key, copy);
        }
        r := Obj(record);
      case _ => r := v;
    }
  }

  // ----- One string

  lemma StringScanned(s: string)
    ensures SanitizeString(s) == StripTags(StripScripts(Trim(s)), false)
  {
    var t := StripScripts(Trim(s));
    ScriptsRemoved(Trim(s));
    TagsRemoved(t, 0);
    assert t[0..] == t;
  }

  lemma {:induction false} TrimEndKeepsStart(s: string)
    ensures TrimEnd(s) <= s
    ensures TrimEnd(s) != "" ==> !IsSpace(TrimEnd(s)[|TrimEnd(s)|-1])
    decreases |s|
  {
    if s != "" && IsSpace(s[|s|-1]) {
      TrimEndKeepsStart(s[..|s|-1]);
    }
  }

  lemma {:induction false} TrimStartStops(s: string)
    ensures TrimStart(s) != "" ==> !IsSpace(TrimStart(s)[0])
    decreases |s|
  {
    if s != "" && IsSpace(s[0]) {
      TrimStartStops(s[1..]);
    }
  }

  lemma TrimTrims(s: string)
    ensures Trimmed(Trim(s))
    ensures Trimmed(s) <==> Trim(s) == s
  {
    TrimStartStops(s);
    TrimEndKeepsStart(TrimStart(s));
  }

  lemma AngleFree(s: string)
    requires '<' !in s
    ensures StripTags(StripScripts(s), false) == s
  {
    ScriptFree(s);
    TagFree(s);
  }

  lemma {:induction false} TrimEndDrops(s: string, c: char)
    requires c !in s
    ensures c !in TrimEnd(s)
    decreases |s|
  {
    if s != "" && IsSpace(s[|s|-1]) {
      TrimEndDrops(s[..|s|-1], c);
    }
  }

  lemma {:induction false} TrimStartDrops(s: string, c: char)
    requires c !in s
    ensures c !in TrimStart(s)
    decreases |s|
  {
    if s != "" && IsSpace(s[0]) {
      TrimStartDrops(s[1..], c);
    }
  }

  // A string without '<' is only trimmed.
  lemma OnlyTrims(s: string)
    requires '<' !in s
    ensures SanitizeString(s) == Trim(s)
  {
    TrimStartDrops(s, '<');
    TrimEndDrops(TrimStart(s), '<');
    StringScanned(s);
    AngleFree(Trim(s));
  }

  /** Of a trimmed string made of text without '<' and of script elements, exactly the text remains. */
  lemma ScriptElementsAreCutOut(texts: seq<string>, scripts: seq<Element>)
    requires |texts| == |scripts| + 1
    requires forall i :: 0 <= i < |texts| ==> '<' !in texts[i]
    requires forall i :: 0 <= i < |scripts| ==> scripts[i].IsScript()
    requires Trimmed(Interleave(texts, scripts))
    ensures SanitizeString(Interleave(texts, scripts)) == Concat(texts)
  {
    var s := Interleave(texts, scripts);
    TrimTrims(s);
    StringScanned(s);
    ScriptsVanish(texts, scripts);
    TagFree(Concat(texts));
  }

  lemma NoMarkupLeft(s: string)
    ensures '<' !in SanitizeString(s)
  {
    StringScanned(s);
    NoAngleLeft(StripScripts(Trim(s)), false);
  }

  ghost predicate IsSubsequence(a: string, b: string) {
    a == "" || (b != "" && (IsSubsequence(a, b[1..]) || (a[0] == b[0] && IsSubsequence(a[1..], b[1..]))))
  }

  lemma {:induction false} SubsequenceTransitive(a: string, b: string, c: string)
    requires IsSubsequence(a, b) && IsSubsequence(b, c)
    ensures IsSubsequence(a, c)
    decreases |c|
  {
    if a != "" {
      if IsSubsequence(b, c[1..]) {
        SubsequenceTransitive(a, b, c[1..]);
      } else if IsSubsequence(a, b[1..]) {
        SubsequenceTransitive(a, b[1..], c[1..]);
      } else {
        SubsequenceTransitive(a[1..], b[1..], c[1..]);
      }
    }
  }

  lemma {:induction false} SubsequenceOfLonger(a: string, s: string, i: nat, j: nat)
    requires i <= j <= |s| && IsSubsequence(a, s[j..])
    ensures IsSubsequence(a, s[i..])
    decreases j - i
  {
    if i < j {
      SubsequenceOfLonger(a, s, i + 1, j);
      assert s[i..][1..] == s[i + 1..];
    }
  }

  /** Replacing by nothing only deletes, whatever the pattern. */
  lemma {:induction false} RemovingOnlyDeletes(r: Regex, ic: bool, s: string, i: nat)
    requires i <= |s|
    ensures IsSubsequence(RemoveAll(r, ic, s, i), s[i..])
    decreases |s| - i
  {
    if i < |s| {
      var j := MatchAt(r, ic, s, i);
      if j.Some? && j.value > i {
        RemovingOnlyDeletes(r, ic, s, j.value);
        SubsequenceOfLonger(RemoveAll(r, ic, s, j.value), s, i, j.value);
      } else {
        RemovingOnlyDeletes(r, ic, s, i + 1);
        assert s[i..][1..] == s[i + 1..];
        assert RemoveAll(r, ic, s, i)[1..] == RemoveAll(r, ic, s, i + 1);
      }
    }
  }

  lemma StringOnlyDeletes(s: string)
    ensures IsSubsequence(SanitizeString(s), Trim(s))
  {
    var t := Trim(s);
    var u := RemoveAll(SCRIPT, true, t, 0);
    RemovingOnlyDeletes(SCRIPT, true, t, 0);
    RemovingOnlyDeletes(TAG, false, u, 0);
    assert t[0..] == t && u[0..] == u;
    SubsequenceTransitive(SanitizeString(s), u, t);
  }

  // ----- What trimming removes

  ghost predicate AllSpace(s: string) {
    forall k :: 0 <= k < |s| ==> IsSpace(s[k])
  }

  /** White space and line terminators, by code point. */
  lemma SpaceExactlyWhen(c: char)
    ensures IsSpace(c) <==>
              var n := c as int;
              n in {9, 10, 11, 12, 13, 32, 0xA0, 0x1680, 0x2028, 0x2029, 0x202F, 0x205F, 0x3000, 0xFEFF}
              || 0x2000 <= n <= 0x200A
  {
  }

  lemma {:induction false} TrimStartSplits(s: string) returns (a: string)
    ensures s == a + TrimStart(s) && AllSpace(a)
    decreases |s|
  {
    if s != "" && IsSpace(s[0]) {
      var rest := TrimStartSplits(s[1..]);
      a := [s[0]] + rest;
    } else {
      a := "";
    }
  }

  lemma {:induction false} TrimEndSplits(s: string) returns (b: string)
    ensures s == TrimEnd(s) + b && AllSpace(b)
    decreases |s|
  {
    if s != "" && IsSpace(s[|s|-1]) {
      var rest := TrimEndSplits(s[..|s|-1]);
      b := rest + [s[|s|-1]];
    } else {
      b := "";
    }
  }

  /** Trimming takes white space off both ends, all of it and nothing else. */
  lemma TrimSplits(s: string) returns (a: string, b: string)
    ensures s == a + Trim(s) + b && AllSpace(a) && AllSpace(b) && Trimmed(Trim(s))
  {
    a := TrimStartSplits(s);
    b := TrimEndSplits(TrimStart(s));
    TrimTrims(s);
  }

  lemma {:induction false} TrimStartPadded(a: string, x: string)
    requires AllSpace(a) && (x != "" ==> !IsSpace(x[0]))
    ensures TrimStart(a + x) == x
    decreases |a|
  {
    if a == "" {
      assert a + x == x;
    } else {
      assert (a + x)[1..] == a[1..] + x;
      TrimStartPadded(a[1..], x);
    }
  }

  lemma {:induction false} TrimEndPadded(x: string, b: string)
    requires AllSpace(b) && (x != "" ==> !IsSpace(x[|x|-1]))
    ensures TrimEnd(x + b) == x
    decreases |b|
  {
    if b == "" {
      assert x + b == x;
    } else {
      var s := x + b;
      assert s[..|s|-1] == x + b[..|b|-1] && s[|s|-1] == b[|b|-1];
      TrimEndPadded(x, b[..|b|-1]);
    }
  }

  lemma TrimPadded(a: string, x: string, b: string)
    requires AllSpace(a) && AllSpace(b) && Trimmed(x)
    ensures Trim(a + x + b) == x
  {
    if x == "" {
      TrimStartPadded(a + b, "");
      assert a + x + b == (a + b) + "";
    } else {
      assert a + x + b == a + (x + b);
      TrimStartPadded(a, x + b);
      TrimEndPadded(x, b);
    }
  }

  /** So what surrounds a text with white space has no effect: the result is what the two scans leave of the text
      itself. Every string is such a text with white space around it. */
  lemma PaddingIsIgnored(a: string, x: string, b: string)
    requires AllSpace(a) && AllSpace(b) && Trimmed(x)
    ensures SanitizeString(a + x + b) == StripTags(StripScripts(x), false) == SanitizeString(x)
  {
    TrimPadded(a, x, b);
    StringScanned(a + x + b);
    TrimTrims(x);
    StringScanned(x);
  }

  // ----- Whole values

  /** In the copy each string is sanitized, so that none holds a '<' and each is what deleting characters from the
      trimmed original leaves, and nothing but strings has changed. */
  lemma {:induction false} SanitizedLeaves(v: Value)
    ensures SameButStrings(v, Sanitize(v), (x, y) =>
              y == SanitizeString(x) && '<' !in y && IsSubsequence(y, Trim(x)))
    decreases v
  {
    match v {
      case Str(s) =>
        NoMarkupLeft(s);
        StringOnlyDeletes(s);
      case Arr(items) =>
        forall i | 0 <= i < |items| {
          SanitizedLeaves(items[i]);
        }
      case Obj(entries) =>
        forall i | 0 <= i < |entries| {
          SanitizedLeaves(entries[i].value);
        }
      case _ =>
    }
  }

  lemma TwiceTrims(s: string)
    ensures SanitizeString(SanitizeString(s)) == Trim(SanitizeString(s))
    ensures SanitizeString(Trim(SanitizeString(s))) == Trim(SanitizeString(s))
  {
    var once := SanitizeString(s);
    NoMarkupLeft(s);
    OnlyTrims(once);
    TrimStartDrops(once, '<');
    TrimEndDrops(TrimStart(once), '<');
    OnlyTrims(Trim(once));
    TrimTrims(once);
    TrimTrims(Trim(once));
  }

  /** A second pass only trims what the first one left, and a third changes nothing. */
  lemma {:induction false} SecondPassTrims(v: Value)
    ensures Sanitize(Sanitize(v)) == MapStrings(Sanitize(v), Trim)
    ensures Sanitize(Sanitize(Sanitize(v))) == Sanitize(Sanitize(v))
    decreases v
  {
    match v {
      case Str(s) => TwiceTrims(s);
      case Arr(items) =>
        forall i | 0 <= i < |items| {
          SecondPassTrims(items[i]);
        }
      case Obj(entries) =>
        forall i | 0 <= i < |entries| {
          SecondPassTrims(entries[i].value);
        }
      case _ =>
    }
  }

  ghost predicate AllStrings(v: Value, p: string -> bool) {
    match v
    case Str(s) => p(s)
    case Arr(items) => forall i :: 0 <= i < |items| ==> AllStrings(items[i], p)
    case Obj(entries) => forall i :: 0 <= i < |entries| ==> AllStrings(entries[i].value, p)
    case _ => true
  }

  // ----- When one pass is enough

  /** The positions of t, from i on, that lie outside scripts and outside tags. */
  function Kept(t: string, i: nat, inside: bool): (ks: seq<nat>)
    requires i <= |t|
    ensures forall k :: 0 <= k < |ks| ==> i <= ks[k] < |t|
    decreases |t| - i
  {
    if i == |t| then []
    else if ScriptEnd(t, i).Some? then Kept(t, ScriptEnd(t, i).value, inside)
    else if inside then Kept(t, i + 1, t[i] != '>')
    else if t[i] == '<' then Kept(t, i + 1, true)
    else [i] + Kept(t, i + 1, false)
  }

  function CharsAt(t: string, ks: seq<nat>): string
    requires forall k :: 0 <= k < |ks| ==> ks[k] < |t|
  {
    seq(|ks|, k requires 0 <= k < |ks| => t[ks[k]])
  }

  lemma {:induction false} KeptIsWhatRemains(t: string, i: nat, inside: bool)
    requires i <= |t|
    ensures StripTags(StripScripts(t[i..]), inside) == CharsAt(t, Kept(t, i, inside))
    decreases |t| - i
  {
    if i < |t| {
      StripStep(t, i);
      if ScriptEnd(t, i).Some? {
        KeptIsWhatRemains(t, ScriptEnd(t, i).value, inside);
      } else {
        TagStep(t[i], StripScripts(t[i + 1..]), inside);
        KeptIsWhatRemains(t, i + 1, if inside then t[i] != '>' else t[i] == '<');
        if !inside && t[i] != '<' {
          CharsCons(t, i, Kept(t, i + 1, false));
        }
      }
    }
  }

  lemma CharsCons(t: string, i: nat, ks: seq<nat>)
    requires i < |t| && forall k :: 0 <= k < |ks| ==> ks[k] < |t|
    ensures (forall k :: 0 <= k < |[i] + ks| ==> ([i] + ks)[k] < |t|)
            && CharsAt(t, [i] + ks) == [t[i]] + CharsAt(t, ks)
  {
  }

  lemma RemainsOfString(s: string)
    ensures SanitizeString(s) == CharsAt(Trim(s), Kept(Trim(s), 0, false))
  {
    StringScanned(s);
    KeptIsWhatRemains(Trim(s), 0, false);
    assert Trim(s)[0..] == Trim(s);
  }

  predicate NoSpaceAtEnds(t: string, ks: seq<nat>)
    requires forall k :: 0 <= k < |ks| ==> ks[k] < |t|
  {
    ks != [] ==> !IsSpace(t[ks[0]]) && !IsSpace(t[ks[|ks|-1]])
  }

  /** The first and the last character outside markup, if there are any, are no white space. */
  predicate VisibleEnds(s: string) {
    NoSpaceAtEnds(Trim(s), Kept(Trim(s), 0, false))
  }

  lemma TrimmedAtEnds(t: string, ks: seq<nat>)
    requires forall k :: 0 <= k < |ks| ==> ks[k] < |t|
    ensures Trimmed(CharsAt(t, ks)) <==> NoSpaceAtEnds(t, ks)
  {
    var u := CharsAt(t, ks);
    assert |u| == |ks| && (ks != [] ==> u[0] == t[ks[0]] && u[|u|-1] == t[ks[|ks|-1]]);
  }

  lemma StringOnePass(s: string)
    ensures SanitizeString(SanitizeString(s)) == SanitizeString(s) <==> VisibleEnds(s)
  {
    RemainsOfString(s);
    TrimmedAtEnds(Trim(s), Kept(Trim(s), 0, false));
    TwiceTrims(s);
    TrimTrims(SanitizeString(s));
  }

  /** Sanitizing once is enough exactly when, in each string, the text outside scripts and tags neither starts
      nor ends with white space. */
  lemma {:induction false} OnePassSufficesExactlyWhen(v: Value)
    ensures Sanitize(Sanitize(v)) == Sanitize(v) <==> AllStrings(v, s => VisibleEnds(s))
    decreases v
  {
    match v {
      case Str(s) =>
        StringOnePass(s);
      case Arr(items) =>
        var once, twice := Sanitize(v).items, Sanitize(Sanitize(v)).items;
        forall i | 0 <= i < |items|
          ensures twice[i] == once[i] <==> AllStrings(items[i], s => VisibleEnds(s))
        {
          OnePassSufficesExactlyWhen(items[i]);
        }
      case Obj(entries) =>
        var once, twice := Sanitize(v).entries, Sanitize(Sanitize(v)).entries;
        forall i | 0 <= i < |entries|
          ensures twice[i] == once[i] <==> AllStrings(entries[i].value, s => VisibleEnds(s))
        {
          OnePassSufficesExactlyWhen(entries[i].value);
        }
      case _ =>
    }
  }

  lemma ScannedIfTrimmed(s: string)
    requires Trimmed(s)
    ensures SanitizeString(s) == StripTags(StripScripts(s), false)
  {
    TrimTrims(s);
    StringScanned(s);
  }

  // A tag in front of a text.
  function Tagged(tag: string, text: string): string {
    ['<'] + (tag + ['>'] + text)
  }

  lemma {:induction false} SkipTag(tag: string, text: string)
    requires '>' !in tag
    ensures StripTags(tag + ['>'] + text, true) == StripTags(text, false)
    decreases |tag|
  {
    var s := tag + ['>'] + text;
    if tag == "" {
      assert s[1..] == text;
    } else {
      assert s[1..] == tag[1..] + ['>'] + text;
      SkipTag(tag[1..], text);
    }
  }

  lemma LeadingTagGoes(tag: string, text: string)
    requires '<' !in tag && '>' !in tag && '<' !in text
    requires tag == "" || Fold(tag[0]) != 's'
    ensures StripTags(StripScripts(Tagged(tag, text)), false) == text
  {
    var rest := tag + ['>'] + text;
    var s := Tagged(tag, text);
    assert s[1..] == rest;
    if |OPEN| <= |s| {
      assert !SameChar(OPEN[1], s[0..|OPEN|][1], true);
    }
    ScriptFree(rest);
    SkipTag(tag, text);
    TagFree(text);
  }

  /** It does not always suffice, because trimming comes before the markup goes: white space that follows
      a leading tag survives the first pass, and the second trims it. So the passes differ exactly when there
      is such white space. */
  lemma LeadingTagShieldsWhiteSpace(tag: string, text: string)
    requires '<' !in tag && '>' !in tag && '<' !in text
    requires tag == "" || Fold(tag[0]) != 's'
    requires text != "" && !IsSpace(text[|text|-1])
    ensures var once := SanitizeString(Tagged(tag, text));
            && once == text
            && SanitizeString(once) == Trim(text)
            && (SanitizeString(once) != once <==> IsSpace(text[0]))
  {
    var s := Tagged(tag, text);
    assert s[0] == '<' && s[|s|-1] == text[|text|-1];
    ScannedIfTrimmed(s);
    LeadingTagGoes(tag, text);
    OnlyTrims(text);
    TrimTrims(text);
  }

  /** For example, with a space and one letter after a bold tag. */
  lemma OnePassIsNotEnough()
    ensures Sanitize(Sanitize(Str(Tagged("b", " a")))) != Sanitize(Str(Tagged("b", " a")))
  {
    LeadingTagShieldsWhiteSpace("b", " a");
  }
}
