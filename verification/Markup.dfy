/** The two patterns of the sanitizer, and the plain scanners that do the same work. */
module Markup {
  import opened Optional
  import opened Regex

  // /<[^>]*>?/gm
  const TAG := Cat(Chr('<'), Cat(Star(Not('>')), Maybe(Chr('>'))))

  const OPEN := "<script"
  const CLOSE := "</script>"

  // (?:(?!<\/script>)<[^<]*)
  const INNER := Cat(Unless(Literal(CLOSE)), Cat(Chr('<'), Star(Not('<'))))

  // /<script\b[^<]*(?:(?!<\/script>)<[^<]*)*<\/script>/gi
  const SCRIPT := Cat(Literal(OPEN), Cat(Boundary, BODY))
  const BODY := Cat(Star(Not('<')), Cat(Star(INNER), Literal(CLOSE)))

  // ----- Tags

  /** Keeps what lies outside tags; an unfinished tag swallows the rest. */
  function StripTags(s: string, inside: bool): string {
    if s == "" then ""
    else if inside then StripTags(s[1..], s[0] != '>')
    else if s[0] == '<' then StripTags(s[1..], true)
    else [s[0]] + StripTags(s[1..], false)
  }

  lemma TagStep(c: char, rest: string, inside: bool)
    ensures StripTags([c] + rest, inside)
            == if inside then StripTags(rest, c != '>')
               else if c == '<' then StripTags(rest, true)
               else [c] + StripTags(rest, false)
  {
    assert ([c] + rest)[1..] == rest;
  }

  lemma TagMatch(s: string, i: nat)
    requires i < |s|
    ensures s[i] != '<' ==> MatchAt(TAG, false, s, i) == None
    ensures s[i] == '<' ==>
              var n := Find('>', s, i + 1);
              MatchAt(TAG, false, s, i) == Some(if n < |s| then n + 1 else n)
  {
    if s[i] == '<' {
      var rest := Cat(Star(Not('>')), Maybe(Chr('>')));
      SingleCat(Chr('<'), rest, false, s, i, i + 1);
      RunEnds('>', false, s, i + 1);
      FirstOfCat(Star(Not('>')), Maybe(Chr('>')), false, s, i + 1);
      var n := Find('>', s, i + 1);
      assert Ends(Maybe(Chr('>')), false, s, n) == Beyond(n, Ends(Chr('>'), false, s, n)) + [n];
    } else {
      assert Ends(Chr('<'), false, s, i) == [];
      NoCat(Chr('<'), Cat(Star(Not('>')), Maybe(Chr('>'))), false, s, i);
    }
  }

  lemma {:induction false} InsideTag(s: string, i: nat)
    requires i <= |s|
    ensures var n := Find('>', s, i);
            StripTags(s[i..], true) == StripTags(s[if n < |s| then n + 1 else n..], false)
    decreases |s| - i
  {
    if i < |s| {
      assert s[i..][1..] == s[i + 1..];
      if s[i] != '>' {
        InsideTag(s, i + 1);
      }
    }
  }

  /** Replacing all matches of the tag pattern is the two-state scan. */
  lemma {:induction false} TagsRemoved(s: string, i: nat)
    requires i <= |s|
    ensures RemoveAll(TAG, false, s, i) == StripTags(s[i..], false)
    decreases |s| - i
  {
    if i < |s| {
      TagMatch(s, i);
      assert s[i..][1..] == s[i + 1..];
      if s[i] == '<' {
        var n := Find('>', s, i + 1);
        InsideTag(s, i + 1);
        TagsRemoved(s, if n < |s| then n + 1 else n);
      } else {
        TagsRemoved(s, i + 1);
      }
    }
  }

  lemma {:induction false} NoAngleLeft(s: string, inside: bool)
    ensures '<' !in StripTags(s, inside)
    decreases |s|
  {
    if s != "" {
      NoAngleLeft(s[1..], true);
      NoAngleLeft(s[1..], false);
    }
  }

  lemma {:induction false} TagFree(s: string)
    requires '<' !in s
    ensures StripTags(s, false) == s
    decreases |s|
  {
    if s != "" {
      TagFree(s[1..]);
    }
  }

  // ----- Scripts

  predicate Closes(s: string, i: int) {
    OccursAt(CLOSE, true, s, i)
  }

  // "<script" and then a word boundary.
  predicate Opens(s: string, i: int) {
    OccursAt(OPEN, true, s, i) && !WordAt(s, i + |OPEN|)
  }

  function FirstClose(s: string, i: nat): (p: Option<nat>)
    requires i <= |s|
    ensures p.Some? ==> i <= p.value && Closes(s, p.value)
    ensures forall q :: i <= q && (p.Some? ==> q < p.value) ==> !Closes(s, q)
    decreases |s| - i
  {
    if Closes(s, i) then Some(i)
    else if i == |s| then None
    else FirstClose(s, i + 1)
  }

  // Where the first-close scan would skip to from i.
  function ScriptEnd(s: string, i: nat): (e: Option<nat>)
    ensures e.Some? ==> i < e.value <= |s|
  {
    if Opens(s, i) && FirstClose(s, i + |OPEN|).Some?
    then Some(FirstClose(s, i + |OPEN|).value + |CLOSE|) else None
  }

  /** Copies everything up to the next opening that is closed somewhere, skips to the end of its first
      closing, and goes on from there. */
  function StripScripts(s: string): string {
    if s == "" then ""
    else if ScriptEnd(s, 0).Some? then StripScripts(s[ScriptEnd(s, 0).value..])
    else [s[0]] + StripScripts(s[1..])
  }

  lemma OnlyAngleStarts(s: string, i: int)
    requires Closes(s, i) || Opens(s, i)
    ensures 0 <= i < |s| && s[i] == '<'
  {
  }

  lemma InnerEnds(s: string, i: nat, j: nat)
    requires i <= |s|
    ensures j in Ends(INNER, true, s, i)
            <==> i < |s| && s[i] == '<' && !Closes(s, i) && i + 1 <= j <= Find('<', s, i + 1)
  {
    var rest := Cat(Chr('<'), Star(Not('<')));
    LiteralEnds(CLOSE, true, s, i);
    if Closes(s, i) {
      NoCat(Unless(Literal(CLOSE)), rest, true, s, i);
    } else {
      SingleCat(Unless(Literal(CLOSE)), rest, true, s, i, i);
      AngleRunEnds(s, i, j);
    }
  }

  lemma AngleRunEnds(s: string, i: nat, j: nat)
    requires i <= |s|
    ensures j in Ends(Cat(Chr('<'), Star(Not('<'))), true, s, i)
            <==> i < |s| && s[i] == '<' && i + 1 <= j <= Find('<', s, i + 1)
  {
    if i < |s| && s[i] == '<' {
      SingleCat(Chr('<'), Star(Not('<')), true, s, i, i + 1);
      RunEnds('<', true, s, i + 1);
    } else {
      NoCat(Chr('<'), Star(Not('<')), true, s, i);
    }
  }

  lemma RunPassesNoClose(s: string, i: nat, j: nat)
    requires i <= |s| && i <= j <= Find('<', s, i)
    ensures forall q :: i <= q < j ==> !Closes(s, q)
  {
    forall q | i <= q < j
      ensures !Closes(s, q)
    {
      if Closes(s, q) {
        OnlyAngleStarts(s, q);
      }
    }
  }

  lemma InnerPassesNoClose(s: string, i: nat, m: nat)
    requires i <= |s| && m in Ends(INNER, true, s, i)
    ensures i < m <= |s| && forall q :: i <= q < m ==> !Closes(s, q)
  {
    InnerEnds(s, i, m);
    RunPassesNoClose(s, i + 1, m);
  }

  // The repeated group never passes over a closing.
  lemma {:induction false} InnersPassNoClose(s: string, i: nat, j: nat)
    requires i <= |s| && j in Ends(Star(INNER), true, s, i)
    ensures forall q :: i <= q < j ==> !Closes(s, q)
    decreases |s| - i
  {
    StarEnds(INNER, true, s, i, j);
    if j != i {
      var m :| m in Ends(INNER, true, s, i) && m > i && j in Ends(Star(INNER), true, s, m);
      InnerPassesNoClose(s, i, m);
      InnersPassNoClose(s, m, j);
    }
  }

  // It can reach the first one.
  lemma {:induction false} InnersReachClose(s: string, i: nat, p: nat)
    requires i <= p && i < |s| && s[i] == '<'
    requires Closes(s, p) && forall q :: i <= q < p ==> !Closes(s, q)
    ensures p in Ends(Star(INNER), true, s, i)
    decreases |s| - i
  {
    StarEnds(INNER, true, s, i, p);
    if i < p {
      OnlyAngleStarts(s, p);
      var m := Find('<', s, i + 1);
      InnerEnds(s, i, m);
      InnersReachClose(s, m, p);
    }
  }

  lemma TailEnds(s: string, m: nat, j: nat) returns (p: nat)
    requires m <= |s| && j in Ends(Cat(Star(INNER), Literal(CLOSE)), true, s, m)
    ensures m <= p && Closes(s, p) && j == p + |CLOSE| && forall q :: m <= q < p ==> !Closes(s, q)
  {
    CatEnds(Star(INNER), Literal(CLOSE), true, s, m, j);
    p :| p in Ends(Star(INNER), true, s, m) && j in Ends(Literal(CLOSE), true, s, p);
    LiteralEnds(CLOSE, true, s, p);
    InnersPassNoClose(s, m, p);
  }

  lemma BodyEndsAtFirstClose(s: string, b: nat, j: nat)
    requires b <= |s| && j in Ends(BODY, true, s, b)
    ensures FirstClose(s, b).Some? && j == FirstClose(s, b).value + |CLOSE|
  {
    var tail := Cat(Star(INNER), Literal(CLOSE));
    CatEnds(Star(Not('<')), tail, true, s, b, j);
    RunEnds('<', true, s, b);
    var m :| m in Ends(Star(Not('<')), true, s, b) && j in Ends(tail, true, s, m);
    RunPassesNoClose(s, b, m);
    var p := TailEnds(s, m, j);
    assert Closes(s, p);
  }

  lemma TailReaches(s: string, n: nat, p: nat)
    requires n <= p && n < |s| && s[n] == '<'
    requires Closes(s, p) && forall q :: n <= q < p ==> !Closes(s, q)
    ensures p + |CLOSE| in Ends(Cat(Star(INNER), Literal(CLOSE)), true, s, n)
  {
    InnersReachClose(s, n, p);
    LiteralEnds(CLOSE, true, s, p);
    CatReaches(Star(INNER), Literal(CLOSE), true, s, n, p, p + |CLOSE|);
  }

  lemma BodyReachesFirstClose(s: string, b: nat)
    requires b <= |s| && FirstClose(s, b).Some?
    ensures FirstClose(s, b).value + |CLOSE| in Ends(BODY, true, s, b)
  {
    var p := FirstClose(s, b).value;
    var n := Find('<', s, b);
    OnlyAngleStarts(s, p);
    TailReaches(s, n, p);
    RunEnds('<', true, s, b);
    CatReaches(Star(Not('<')), Cat(Star(INNER), Literal(CLOSE)), true, s, b, n, p + |CLOSE|);
  }

  /** The script pattern has at most one match at each start: it matches at an opening exactly when a closing
      follows, and every way of backtracking ends at the first closing. */
  lemma ScriptMatchIsUnique(s: string, i: nat, j: nat)
    requires i <= |s|
    ensures j in Ends(SCRIPT, true, s, i) <==> ScriptEnd(s, i) == Some(j)
  {
    var rest := Cat(Boundary, BODY);
    LiteralEnds(OPEN, true, s, i);
    if OccursAt(OPEN, true, s, i) {
      SingleCat(Literal(OPEN), rest, true, s, i, i + |OPEN|);
      AfterOpenEnds(s, i, j);
    } else {
      NoCat(Literal(OPEN), rest, true, s, i);
    }
  }

  lemma BodyEnds(s: string, b: nat, j: nat)
    requires b <= |s|
    ensures j in Ends(BODY, true, s, b)
            <==> FirstClose(s, b).Some? && j == FirstClose(s, b).value + |CLOSE|
  {
    if j in Ends(BODY, true, s, b) {
      BodyEndsAtFirstClose(s, b, j);
    }
    if FirstClose(s, b).Some? {
      BodyReachesFirstClose(s, b);
    }
  }

  lemma AfterOpenEnds(s: string, i: nat, j: nat)
    requires OccursAt(OPEN, true, s, i)
    ensures j in Ends(Cat(Boundary, BODY), true, s, i + |OPEN|) <==> ScriptEnd(s, i) == Some(j)
  {
    var b := i + |OPEN|;
    assert SameChar(OPEN[6], s[i..b][6], true);
    assert WordAt(s, b - 1);
    if WordAt(s, b) {
      NoCat(Boundary, BODY, true, s, b);
    } else {
      SingleCat(Boundary, BODY, true, s, b, b);
      BodyEnds(s, b, j);
    }
  }

  lemma ScriptMatch(s: string, i: nat)
    requires i <= |s|
    ensures MatchAt(SCRIPT, true, s, i) == ScriptEnd(s, i)
  {
    var js := Ends(SCRIPT, true, s, i);
    if js != [] {
      assert js[0] in js;
      ScriptMatchIsUnique(s, i, js[0]);
    }
    if ScriptEnd(s, i).Some? {
      ScriptMatchIsUnique(s, i, ScriptEnd(s, i).value);
    }
  }

  lemma OccursInSuffix(text: string, s: string, i: nat, k: nat)
    requires i <= |s|
    ensures OccursAt(text, true, s[i..], k) <==> OccursAt(text, true, s, i + k)
  {
  }

  lemma FirstCloseIs(s: string, i: nat, p: nat)
    requires i <= p <= |s| && Closes(s, p) && forall q :: i <= q < p ==> !Closes(s, q)
    ensures FirstClose(s, i) == Some(p)
  {
  }

  lemma FirstCloseInSuffix(s: string, i: nat, k: nat)
    requires i + k <= |s|
    ensures FirstClose(s, i + k).Some? <==> FirstClose(s[i..], k).Some?
    ensures FirstClose(s, i + k).Some? ==> FirstClose(s, i + k).value == i + FirstClose(s[i..], k).value
  {
    var t := s[i..];
    forall q: nat
      ensures Closes(t, q) <==> Closes(s, i + q)
    {
      OccursInSuffix(CLOSE, s, i, q);
    }
    var p := FirstClose(t, k);
    if p.Some? {
      forall q | i + k <= q < i + p.value
        ensures !Closes(s, q)
      {
        assert !Closes(t, q - i);
      }
      FirstCloseIs(s, i + k, i + p.value);
    } else if FirstClose(s, i + k).Some? {
      assert Closes(t, FirstClose(s, i + k).value - i);
    }
  }

  lemma SuffixStep(s: string, i: nat)
    requires i < |s|
    ensures var p, q := ScriptEnd(s, i), ScriptEnd(s[i..], 0);
            (p.Some? <==> q.Some?) && (p.Some? ==> p.value == i + q.value)
  {
    OccursInSuffix(OPEN, s, i, 0);
    if Opens(s, i) {
      FirstCloseInSuffix(s, i, |OPEN|);
    }
  }

  /** Replacing all matches of the script pattern is the left-to-right first-close scan. */
  lemma ScriptsRemoved(s: string)
    ensures RemoveAll(SCRIPT, true, s, 0) == StripScripts(s)
  {
    forall i | 0 <= i <= |s|
      ensures MatchAt(SCRIPT, true, s, i) == ScriptEnd(s, i)
    {
      ScriptMatch(s, i);
    }
    ScanFrom(SCRIPT, s, 0);
    assert s[0..] == s;
  }

  lemma StripStep(s: string, i: nat)
    requires i < |s|
    ensures StripScripts(s[i..])
            == if ScriptEnd(s, i).Some? then StripScripts(s[ScriptEnd(s, i).value..])
               else [s[i]] + StripScripts(s[i + 1..])
  {
    SuffixStep(s, i);
    if ScriptEnd(s, i).Some? {
      assert s[i..][ScriptEnd(s[i..], 0).value..] == s[ScriptEnd(s, i).value..];
    } else {
      assert s[i..][1..] == s[i + 1..];
    }
  }

  lemma {:induction false} ScanFrom(pattern: Regex, s: string, i: nat)
    requires i <= |s| && forall k :: 0 <= k <= |s| ==> MatchAt(pattern, true, s, k) == ScriptEnd(s, k)
    ensures RemoveAll(pattern, true, s, i) == StripScripts(s[i..])
    decreases |s| - i
  {
    if i < |s| {
      StripStep(s, i);
      ScanFrom(pattern, s, if ScriptEnd(s, i).Some? then ScriptEnd(s, i).value else i + 1);
    }
  }

  lemma {:induction false} ScriptFree(s: string)
    requires '<' !in s
    ensures StripScripts(s) == s
    decreases |s|
  {
    if s != "" {
      if Opens(s, 0) {
        OnlyAngleStarts(s, 0);
      }
      ScriptFree(s[1..]);
    }
  }

  lemma WordInAnyCase(s: string, t: string, i: int)
    requires SameButCase(s, t)
    ensures WordAt(s, i) <==> WordAt(t, i)
  {
    if 0 <= i < |s| {
      assert CaseVariants(s[i], t[i]);
    }
  }

  lemma {:induction false} FirstCloseInAnyCase(s: string, t: string, i: nat)
    requires SameButCase(s, t) && i <= |s|
    ensures FirstClose(s, i) == FirstClose(t, i)
    decreases |s| - i
  {
    OccursInAnyCase(CLOSE, s, t, i);
    if !Closes(s, i) && i < |s| {
      FirstCloseInAnyCase(s, t, i + 1);
    }
  }

  lemma OpensInAnyCase(s: string, t: string, i: nat)
    requires SameButCase(s, t)
    ensures Opens(s, i) <==> Opens(t, i)
  {
    OccursInAnyCase(OPEN, s, t, i);
    WordInAnyCase(s, t, i + |OPEN|);
  }

  /** Scripts are found whatever the case of their letters. */
  lemma ScriptEndInAnyCase(s: string, t: string, i: nat)
    requires SameButCase(s, t)
    ensures ScriptEnd(s, i) == ScriptEnd(t, i)
  {
    OpensInAnyCase(s, t, i);
    if Opens(s, i) {
      var b := i + |OPEN|;
      assert b <= |s| == |t|;
      FirstCloseInAnyCase(s, t, b);
    }
  }

  // ----- Text with scripts in it

  /** An opening tag name, what follows it up to the closing tag, and the closing tag. */
  datatype Element = Element(open: string, body: string, close: string) {
    function Text(): string {
      open + body + close
    }

    ghost predicate IsScript() {
      && |open| == |OPEN| && OccursAt(OPEN, true, open, 0)
      && |close| == |CLOSE| && Closes(close, 0)
      && (forall i :: !Closes(body, i))
      && (body == "" || !IsWordChar(body[0]))
    }
  }

  // The closing tag cannot overlap itself: an occurrence that starts in the body lies in the body.
  lemma NoOverlap(e: Element, rest: string, q: nat)
    requires e.IsScript() && |OPEN| <= q < |OPEN| + |e.body|
    ensures !Closes(e.Text() + rest, q)
  {
    var s := e.Text() + rest;
    var at := |OPEN| + |e.body|;
    assert s[at] == '<' by {
      OnlyAngleStarts(e.close, 0);
    }
    if q + |CLOSE| <= at {
      assert s[q..q + |CLOSE|] == e.body[q - |OPEN|..q - |OPEN| + |CLOSE|];
      assert !Closes(e.body, q - |OPEN|);
    } else if q + |CLOSE| <= |s| {
      var k := at - q;
      assert !SameChar(CLOSE[k], s[q..q + |CLOSE|][k], true);
    }
  }

  lemma ScriptElementVanishes(e: Element, rest: string)
    requires e.IsScript()
    ensures StripScripts(e.Text() + rest) == StripScripts(rest)
  {
    var s := e.Text() + rest;
    var at := |OPEN| + |e.body|;
    assert Closes(s, at) by {
      assert s[at..at + |CLOSE|] == e.close == e.close[0..|CLOSE|];
    }
    assert Opens(s, 0) by {
      assert s[0..|OPEN|] == e.open == e.open[0..|OPEN|];
      if e.body == "" {
        OnlyAngleStarts(s, at);
      } else {
        assert s[|OPEN|] == e.body[0];
      }
    }
    var p := FirstClose(s, |OPEN|);
    if p.value < at {
      NoOverlap(e, rest, p.value);
    }
    assert s[at + |CLOSE|..] == rest;
  }

  lemma CharStays(c: char, rest: string)
    requires c != '<'
    ensures StripScripts([c] + rest) == [c] + StripScripts(rest)
  {
    var s := [c] + rest;
    assert s[0] == c && s[1..] == rest;
    if Opens(s, 0) {
      OnlyAngleStarts(s, 0);
    }
  }

  // A scan that copies each character but '<' copies every text without one.
  lemma {:induction false} CopiedText(scan: string -> string, text: string, rest: string)
    requires forall c, r :: c != '<' ==> scan([c] + r) == [c] + scan(r)
    requires '<' !in text
    ensures scan(text + rest) == text + scan(rest)
    decreases |text|
  {
    if text == "" {
      assert text + rest == rest;
    } else {
      assert text + rest == [text[0]] + (text[1..] + rest);
      CopiedText(scan, text[1..], rest);
      assert text + scan(rest) == [text[0]] + (text[1..] + scan(rest));
    }
  }

  lemma TextStays(text: string, rest: string)
    requires '<' !in text
    ensures StripScripts(text + rest) == text + StripScripts(rest)
  {
    forall c, r | c != '<'
      ensures StripScripts([c] + r) == [c] + StripScripts(r)
    {
      CharStays(c, r);
    }
    CopiedText(s => StripScripts(s), text, rest);
  }

  function Concat(texts: seq<string>): string {
    if texts == [] then "" else texts[0] + Concat(texts[1..])
  }

  function Interleave(texts: seq<string>, scripts: seq<Element>): string
    requires |texts| == |scripts| + 1
  {
    if scripts == [] then texts[0]
    else texts[0] + (scripts[0].Text() + Interleave(texts[1..], scripts[1..]))
  }

  lemma {:induction false} ScriptsVanish(texts: seq<string>, scripts: seq<Element>)
    requires |texts| == |scripts| + 1
    requires forall i :: 0 <= i < |texts| ==> '<' !in texts[i]
    requires forall i :: 0 <= i < |scripts| ==> scripts[i].IsScript()
    ensures StripScripts(Interleave(texts, scripts)) == Concat(texts)
    ensures '<' !in Concat(texts)
    decreases |scripts|
  {
    if scripts == [] {
      ScriptFree(texts[0]);
      assert Concat(texts) == texts[0] + Concat(texts[1..]) == texts[0];
    } else {
      var rest := Interleave(texts[1..], scripts[1..]);
      TextStays(texts[0], scripts[0].Text() + rest);
      ScriptElementVanishes(scripts[0], rest);
      ScriptsVanish(texts[1..], scripts[1..]);
    }
  }

  // ----- The same, written out

  ghost predicate ClosingAt(s: string, i: int) {
    0 <= i <= |s| - 9 && SameButCase("</script>", s[i..i + 9])
  }

  /** A script element in any case of its tags goes, with its body: after `<script` comes the end of the tag name,
      that is anything but a letter, a digit or an underscore, and the body holds no closing tag. */
  lemma ScriptElementGoes(open: string, body: string, close: string, rest: string)
    requires SameButCase("<script", open) && SameButCase("</script>", close) && (forall i :: !ClosingAt(body, i))
    requires body != "" ==> var n := body[0] as int; !(48 <= n <= 57 || 65 <= n <= 90 || n == 95 || 97 <= n <= 122)
    ensures StripScripts(open + body + close + rest) == StripScripts(rest)
  {
    var e := Element(open, body, close);
    SameTextExactlyWhen(OPEN, open);
    SameTextExactlyWhen(CLOSE, close);
    assert open[0..|OPEN|] == open && close[0..|CLOSE|] == close;
    forall i
      ensures !Closes(body, i)
    {
      OccursExactlyWhen(CLOSE, body, i);
      assert !ClosingAt(body, i);
    }
    if body != "" {
      WordCharExactlyWhen(body[0]);
    }
    ScriptElementVanishes(e, rest);
  }

  /** A tag whose name only begins with `<script` opens no script. */
  lemma LongerNameIsNoScript(open: string, c: char, rest: string)
    requires SameButCase("<script", open)
    requires var n := c as int; 48 <= n <= 57 || 65 <= n <= 90 || n == 95 || 97 <= n <= 122
    ensures ScriptEnd(open + [c] + rest, 0) == None
  {
    WordCharExactlyWhen(c);
    var s := open + [c] + rest;
    assert s[|OPEN|] == c;
  }
}
