/** A backtracking matcher for the fragment of ECMAScript regular expressions the middleware and the logger
    use (ECMA-262, section 22.2.2): `Ends` lists every position at which a match from `i` can end, in the
    order in which the backtracking search tries them, so the match found is the first. */
module Regex {
  import opened Optional

  datatype Regex =
    | Empty
    | Chr(c: char)                    // a literal character
    | Not(c: char)                    // [^c]
    | Cat(left: Regex, right: Regex)
    | Alt(left: Regex, right: Regex)
    | Maybe(body: Regex)              // body?
    | Star(body: Regex)               // body*
    | Unless(body: Regex)             // (?!body)
    | Boundary                        // \b

  function Literal(text: string): Regex {
    if text == "" then Empty else Cat(Chr(text[0]), Literal(text[1..]))
  }

  // Under the i flag an ASCII letter matches its two cases and nothing else.
  function Fold(c: char): char {
    if 'A' <= c <= 'Z' then c + ' ' else c
  }

  predicate SameChar(a: char, b: char, ignoreCase: bool) {
    if ignoreCase then Fold(a) == Fold(b) else a == b
  }

  // The same character, or the two cases of one letter of the basic alphabet.
  ghost predicate CaseVariants(a: char, b: char) {
    || a == b
    || ('A' <= a <= 'Z' && b as int - 'a' as int == a as int - 'A' as int)
    || ('A' <= b <= 'Z' && a as int - 'a' as int == b as int - 'A' as int)
  }

  /** Under the i flag two characters are alike exactly when they are case variants, and without it when they are
      equal. */
  lemma SameCharExactlyWhen(a: char, b: char)
    ensures SameChar(a, b, true) <==> CaseVariants(a, b)
    ensures SameChar(a, b, false) <==> a == b
  {
  }

  /** Two texts that differ in case only. */
  ghost predicate SameButCase(a: string, b: string) {
    |a| == |b| && forall k :: 0 <= k < |a| ==> CaseVariants(a[k], b[k])
  }

  predicate IsWordChar(c: char) {
    'A' <= c <= 'Z' || 'a' <= c <= 'z' || '0' <= c <= '9' || c == '_'
  }

  /** Word characters are the letters of the basic alphabet, the digits and the underscore. */
  lemma WordCharExactlyWhen(c: char)
    ensures IsWordChar(c) <==>
              var n := c as int; 48 <= n <= 57 || 65 <= n <= 90 || n == 95 || 97 <= n <= 122
  {
  }

  predicate WordAt(s: string, i: int) {
    0 <= i < |s| && IsWordChar(s[i])
  }

  // An iteration that is not required must consume something.
  function Beyond(i: nat, js: seq<nat>): (ks: seq<nat>)
    ensures forall k :: k in ks <==> k in js && k > i
  {
    if js == [] then [] else (if js[0] > i then [js[0]] else []) + Beyond(i, js[1..])
  }

  function Ends(r: Regex, ic: bool, s: string, i: nat): (js: seq<nat>)
    requires i <= |s|
    ensures forall j :: j in js ==> i <= j <= |s|
    decreases r, |s| - i, 0, 0
  {
    match r
    case Empty => [i]
    case Chr(c) => if i < |s| && SameChar(c, s[i], ic) then [i + 1] else []
    case Not(c) => if i < |s| && !SameChar(c, s[i], ic) then [i + 1] else []
    case Cat(a, b) => Onward(b, ic, s, i, Ends(a, ic, s, i))
    case Alt(a, b) => Ends(a, ic, s, i) + Ends(b, ic, s, i)
    case Maybe(a) => Beyond(i, Ends(a, ic, s, i)) + [i]
    case Star(a) => (if i == |s| then [] else Onward(r, ic, s, i + 1, Beyond(i, Ends(a, ic, s, i)))) + [i]
    case Unless(a) => if Ends(a, ic, s, i) == [] then [i] else []
    case Boundary => if WordAt(s, i - 1) != WordAt(s, i) then [i] else []
  }

  // The ends of r from each of the given positions in turn.
  function Onward(r: Regex, ic: bool, s: string, lo: nat, ms: seq<nat>): (js: seq<nat>)
    requires lo <= |s| && forall m :: m in ms ==> lo <= m <= |s|
    ensures forall j :: j in js ==> lo <= j <= |s|
    decreases r, |s| - lo, 1, |ms|
  {
    if ms == [] then []
    else
      assert ms[0] in ms && forall m :: m in ms[1..] ==> m in ms;
      Ends(r, ic, s, ms[0]) + Onward(r, ic, s, lo, ms[1..])
  }

  /** Where the match starting at `i` ends, if there is one. */
  function MatchAt(r: Regex, ic: bool, s: string, i: nat): (j: Option<nat>)
    requires i <= |s|
    ensures j.Some? ==> i <= j.value <= |s|
  {
    var js := Ends(r, ic, s, i);
    if js == [] then None else assert js[0] in js; Some(js[0])
  }

  /** `replace` with the g flag and an empty replacement, from position `i` on: matches are taken left to
      right, each search resuming where the last match ended, or one further if that match was empty. */
  function RemoveAll(r: Regex, ic: bool, s: string, i: nat): string
    requires i <= |s|
    decreases |s| - i
  {
    if i == |s| then ""
    else
      var j := MatchAt(r, ic, s, i);
      if j.Some? && j.value > i then RemoveAll(r, ic, s, j.value)
      else [s[i]] + RemoveAll(r, ic, s, i + 1)
  }

  /** `test`: some match exists somewhere. */
  predicate Test(r: Regex, ic: bool, s: string) {
    exists i :: 0 <= i <= |s| && MatchAt(r, ic, s, i).Some?
  }

  // ----- What membership in Ends means

  lemma {:induction false} OnwardEnds(r: Regex, ic: bool, s: string, lo: nat, ms: seq<nat>, j: nat)
    requires lo <= |s| && forall m :: m in ms ==> lo <= m <= |s|
    ensures j in Onward(r, ic, s, lo, ms) <==> exists m :: m in ms && j in Ends(r, ic, s, m)
    decreases |ms|
  {
    if ms != [] {
      assert ms[0] in ms && forall m :: m in ms[1..] ==> m in ms;
      OnwardEnds(r, ic, s, lo, ms[1..], j);
      if m :| m in ms && j in Ends(r, ic, s, m) {
        assert m == ms[0] || m in ms[1..];
      }
    }
  }

  lemma CatEnds(a: Regex, b: Regex, ic: bool, s: string, i: nat, j: nat)
    requires i <= |s|
    ensures j in Ends(Cat(a, b), ic, s, i)
            <==> exists m :: m in Ends(a, ic, s, i) && j in Ends(b, ic, s, m)
  {
    OnwardEnds(b, ic, s, i, Ends(a, ic, s, i), j);
  }

  lemma CatReaches(a: Regex, b: Regex, ic: bool, s: string, i: nat, m: nat, j: nat)
    requires i <= |s| && m in Ends(a, ic, s, i) && j in Ends(b, ic, s, m)
    ensures j in Ends(Cat(a, b), ic, s, i)
  {
    CatEnds(a, b, ic, s, i, j);
  }

  lemma OnwardBeyond(r: Regex, ic: bool, s: string, i: nat, ms: seq<nat>, j: nat)
    requires i < |s| && forall m :: m in ms ==> i <= m <= |s|
    ensures j in Onward(r, ic, s, i + 1, Beyond(i, ms)) <==> exists m :: m in ms && m > i && j in Ends(r, ic, s, m)
  {
    var bs := Beyond(i, ms);
    OnwardEnds(r, ic, s, i + 1, bs, j);
    assert forall m :: m in bs <==> m in ms && m > i;
  }

  lemma StarEnds(a: Regex, ic: bool, s: string, i: nat, j: nat)
    requires i <= |s|
    ensures j in Ends(Star(a), ic, s, i)
            <==> j == i || exists m :: m in Ends(a, ic, s, i) && m > i && j in Ends(Star(a), ic, s, m)
  {
    var r, ms := Star(a), Ends(a, ic, s, i);
    if i == |s| {
      assert Ends(r, ic, s, i) == [i];
    } else {
      var js := Onward(r, ic, s, i + 1, Beyond(i, ms));
      assert Ends(r, ic, s, i) == js + [i];
      OnwardBeyond(r, ic, s, i, ms, j);
    }
  }

  predicate SameText(a: string, b: string, ignoreCase: bool) {
    |a| == |b| && forall k :: 0 <= k < |a| ==> SameChar(a[k], b[k], ignoreCase)
  }

  /** A literal occurs at `i`, up to case when the flag says so. */
  predicate OccursAt(text: string, ic: bool, s: string, i: int) {
    0 <= i <= |s| - |text| && SameText(text, s[i..i + |text|], ic)
  }

  lemma {:induction false} LiteralEnds(text: string, ic: bool, s: string, i: nat)
    requires i <= |s|
    ensures Ends(Literal(text), ic, s, i) == if OccursAt(text, ic, s, i) then [i + |text|] else []
    decreases text
  {
    if text != "" {
      if |s| - |text| < i {
        NoRoom(text, ic, s, i);
      } else {
        var rest := text[1..];
        LiteralEnds(rest, ic, s, i + 1);
        OccursStep(text, ic, s, i);
        if SameChar(text[0], s[i], ic) {
          SingleCat(Chr(text[0]), Literal(rest), ic, s, i, i + 1);
        } else {
          NoCat(Chr(text[0]), Literal(rest), ic, s, i);
        }
      }
    }
  }

  lemma SameTextExactlyWhen(a: string, b: string)
    ensures SameText(a, b, true) <==> SameButCase(a, b)
  {
    forall k | 0 <= k < |a| && k < |b|
      ensures SameChar(a[k], b[k], true) <==> CaseVariants(a[k], b[k])
    {
      SameCharExactlyWhen(a[k], b[k]);
    }
  }

  /** A literal occurs under the i flag exactly where the text differs from it in case only. */
  lemma OccursExactlyWhen(text: string, s: string, i: int)
    ensures OccursAt(text, true, s, i) <==> 0 <= i <= |s| - |text| && SameButCase(text, s[i..i + |text|])
  {
    if 0 <= i <= |s| - |text| {
      SameTextExactlyWhen(text, s[i..i + |text|]);
    }
  }

  lemma CaseVariantsAlike(a: char, b: char, c: char)
    requires CaseVariants(b, c)
    ensures SameChar(a, b, true) <==> SameChar(a, c, true)
  {
    SameCharExactlyWhen(b, c);
  }

  /** Whether a literal occurs does not depend on the case of the text. */
  lemma OccursInAnyCase(text: string, s: string, t: string, i: int)
    requires SameButCase(s, t)
    ensures OccursAt(text, true, s, i) <==> OccursAt(text, true, t, i)
  {
    if 0 <= i <= |s| - |text| {
      var a, b := s[i..i + |text|], t[i..i + |text|];
      forall k | 0 <= k < |text|
        ensures SameChar(text[k], a[k], true) <==> SameChar(text[k], b[k], true)
      {
        assert a[k] == s[i + k] && b[k] == t[i + k];
        CaseVariantsAlike(text[k], a[k], b[k]);
      }
    }
  }

  lemma OccursStep(text: string, ic: bool, s: string, i: nat)
    requires text != "" && i + |text| <= |s|
    ensures OccursAt(text, ic, s, i) <==> SameChar(text[0], s[i], ic) && OccursAt(text[1..], ic, s, i + 1)
  {
    var rest := text[1..];
    var here, next := s[i..i + |text|], s[i + 1..i + 1 + |rest|];
    assert next == here[1..];
    assert forall k :: 0 <= k < |rest| ==> rest[k] == text[k + 1] && next[k] == here[k + 1];
    assert forall k :: 0 < k < |text| ==> text[k] == rest[k - 1] && here[k] == next[k - 1];
  }

  lemma {:induction false} NoRoom(text: string, ic: bool, s: string, i: nat)
    requires |s| - |text| < i <= |s|
    ensures Ends(Literal(text), ic, s, i) == []
    decreases text
  {
    if i < |s| && SameChar(text[0], s[i], ic) {
      SingleCat(Chr(text[0]), Literal(text[1..]), ic, s, i, i + 1);
      NoRoom(text[1..], ic, s, i + 1);
    } else {
      NoCat(Chr(text[0]), Literal(text[1..]), ic, s, i);
    }
  }

  // After the only possible end of the first part, the second part decides.
  lemma SingleCat(a: Regex, b: Regex, ic: bool, s: string, i: nat, m: nat)
    requires i <= m <= |s| && Ends(a, ic, s, i) == [m]
    ensures Ends(Cat(a, b), ic, s, i) == Ends(b, ic, s, m)
  {
    var one := Ends(a, ic, s, i);
    assert one[1..] == [];
    assert Onward(b, ic, s, i, one) == Ends(b, ic, s, m) + Onward(b, ic, s, i, one[1..]);
  }

  lemma NoCat(a: Regex, b: Regex, ic: bool, s: string, i: nat)
    requires i <= |s| && Ends(a, ic, s, i) == []
    ensures Ends(Cat(a, b), ic, s, i) == []
  {
  }

  // The first end of a concatenation comes from the first end of its first part, if that can go on.
  lemma FirstOfCat(a: Regex, b: Regex, ic: bool, s: string, i: nat)
    requires i <= |s| && Ends(a, ic, s, i) != []
    ensures var m := Ends(a, ic, s, i)[0];
            m in Ends(a, ic, s, i)
            && (Ends(b, ic, s, m) != [] ==>
                  Ends(Cat(a, b), ic, s, i) != [] && Ends(Cat(a, b), ic, s, i)[0] == Ends(b, ic, s, m)[0])
  {
  }

  lemma SingleStar(a: Regex, ic: bool, s: string, i: nat, m: nat)
    requires i < m <= |s| && Ends(a, ic, s, i) == [m]
    ensures Ends(Star(a), ic, s, i) == Ends(Star(a), ic, s, m) + [i]
  {
    var one := Ends(a, ic, s, i);
    assert one[1..] == [];
    assert Beyond(i, one) == [m] + Beyond(i, one[1..]) == [m];
    var two := [m];
    assert two[1..] == [];
    assert Onward(Star(a), ic, s, i + 1, two) == Ends(Star(a), ic, s, m) + Onward(Star(a), ic, s, i + 1, two[1..]);
  }

  // ----- Runs of characters other than c

  // The first position from `i` on that holds c, or the end.
  function Find(c: char, s: string, i: nat): (n: nat)
    requires i <= |s|
    ensures i <= n <= |s| && (n < |s| ==> s[n] == c)
    ensures forall k :: i <= k < n ==> s[k] != c
    decreases |s| - i
  {
    if i == |s| || s[i] == c then i else Find(c, s, i + 1)
  }

  // n, n - 1, ..., i.
  function Countdown(n: nat, i: nat): (js: seq<nat>)
    requires i <= n
    ensures js != [] && js[0] == n
    ensures forall j :: j in js <==> i <= j <= n
    decreases n - i
  {
    if i == n then [n] else Countdown(n, i + 1) + [i]
  }

  // [^c]* takes as much as it can, and can give back everything.
  lemma {:induction false} RunEnds(c: char, ic: bool, s: string, i: nat)
    requires i <= |s| && forall d :: SameChar(c, d, ic) <==> c == d
    ensures Ends(Star(Not(c)), ic, s, i) == Countdown(Find(c, s, i), i)
    decreases |s| - i
  {
    if i < |s| && s[i] != c {
      RunEnds(c, ic, s, i + 1);
      SingleStar(Not(c), ic, s, i, i + 1);
    } else {
      assert Ends(Not(c), ic, s, i) == [];
    }
  }
}
