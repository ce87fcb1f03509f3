/** Masking of sensitive fields before a value is logged. */
module Masker {
  import opened Regex
  import opened JsonValue
  import San = Sanitizer

  const MASK := "***MASKED***"

  const SENSITIVE_WORDS :=
    ["password", "token", "secret", "aadhaar", "pan", "otp", "creditcard", "authorization"]

  function AnyOf(words: seq<string>): Regex
    requires words != []
  {
    if |words| == 1 then Literal(words[0]) else Alt(Literal(words[0]), AnyOf(words[1..]))
  }

  // /password|token|secret|aadhaar|pan|otp|creditcard|authorization/i
  const SENSITIVE := AnyOf(SENSITIVE_WORDS)

  ghost predicate Mentions(words: seq<string>, key: string, i: int) {
    exists w :: w in words && OccursAt(w, true, key, i)
  }

  /** One of the words occurs somewhere in the key, in any case. */
  ghost predicate IsSensitive(key: string) {
    exists i :: 0 <= i <= |key| && Mentions(SENSITIVE_WORDS, key, i)
  }

  ghost function Mask(v: Value): Value {
    match v
    case Undefined => v
    case Null => v
    case Str(_) => v
    case Arr(items) => Arr(seq(|items|, i requires 0 <= i < |items| => Mask(items[i])))
    case Obj(entries) => Obj(seq(|entries|, i requires 0 <= i < |entries| => MaskEntry(entries[i])))
    case _ => v
  }

  ghost function MaskEntry(e: Entry): Entry {
    if IsSensitive(e.key) then Entry(e.key, Str(MASK))
    else if e.value.Arr? || e.value.Obj? then Entry(e.key, Mask(e.value))
    else e
  }

  method TestKey(key: string) returns (sensitive: bool)
    ensures sensitive <==> IsSensitive(key)
  {
    SensitiveExactlyWhen(key);
    sensitive := Test(SENSITIVE, true, key);
  }

  /** The recursive walk as it runs: an object's copy is filled key by key. */
  method MaskSensitiveData(v: Value) returns (r: Value)
    requires DistinctKeys(v)
    ensures r == Mask(v)
    decreases v
  {
    match v {
      case Arr(items) =>
        var copies := [];
        for i := 0 to |items|
          invariant |copies| == i && forall k :: 0 <= k < i ==> copies[k] == Mask(items[k])
        {
          var copy := MaskSensitiveData(items[i]);
          copies := copies + [copy];
        }
        r := Arr(copies);
      case Obj(entries) =>
        var record := [];
        for i := 0 to |entries|
          invariant |record| == i
          invariant forall k :: 0 <= k < i ==> record[k] == MaskEntry(entries[k])
        {
          var key, value := entries[i].key, entries[i].value;
          var sensitive := TestKey(key);
          if sensitive {
            record := SetKey(record, key, Str(MASK));
          } else if value.Arr? || value.Obj? {
            var copy := MaskSensitiveData(value);
            record := SetKey(record, key, copy);
          } else {
            record := SetKey(record, key, value);
          }
        }
        r := Obj(record);
      case _ => r := v;
    }
  }

  // ----- Which keys are sensitive

  lemma {:induction false} AnyOfMatches(words: seq<string>, key: string, i: nat)
    requires words != [] && i <= |key|
    ensures Ends(AnyOf(words), true, key, i) != [] <==> Mentions(words, key, i)
    decreases |words|
  {
    LiteralEnds(words[0], true, key, i);
    if |words| > 1 {
      AnyOfMatches(words[1..], key, i);
      assert forall w :: w in words <==> w == words[0] || w in words[1..];
    }
  }

  /** The pattern is found in a key exactly when one of the words occurs in it, in any case and anywhere. */
  lemma SensitiveExactlyWhen(key: string)
    ensures Test(SENSITIVE, true, key) <==> IsSensitive(key)
  {
    forall i | 0 <= i <= |key|
      ensures MatchAt(SENSITIVE, true, key, i).Some? <==> Mentions(SENSITIVE_WORDS, key, i)
    {
      AnyOfMatches(SENSITIVE_WORDS, key, i);
    }
  }

  // A word occurs in the key at i, up to case.
  ghost predicate Says(key: string, i: int, word: string) {
    0 <= i <= |key| - |word| && SameButCase(word, key[i..i + |word|])
  }

  /** The pattern is found in a key exactly when one of these eight words occurs in it, in any case. */
  lemma PatternFoundExactlyWhen(key: string)
    ensures Test(SENSITIVE, true, key) <==> exists i ::
              || Says(key, i, "password") || Says(key, i, "token") || Says(key, i, "secret")
              || Says(key, i, "aadhaar") || Says(key, i, "pan") || Says(key, i, "otp")
              || Says(key, i, "creditcard") || Says(key, i, "authorization")
  {
    SensitiveExactlyWhen(key);
    forall i
      ensures 0 <= i <= |key| && Mentions(SENSITIVE_WORDS, key, i)
              <==> || Says(key, i, "password") || Says(key, i, "token") || Says(key, i, "secret")
                   || Says(key, i, "aadhaar") || Says(key, i, "pan") || Says(key, i, "otp")
                   || Says(key, i, "creditcard") || Says(key, i, "authorization")
    {
      WordsSaid(key, i);
    }
  }

  lemma WordsSaid(key: string, i: int)
    ensures Mentions(SENSITIVE_WORDS, key, i)
            <==> || Says(key, i, "password") || Says(key, i, "token") || Says(key, i, "secret")
                 || Says(key, i, "aadhaar") || Says(key, i, "pan") || Says(key, i, "otp")
                 || Says(key, i, "creditcard") || Says(key, i, "authorization")
  {
    forall w: string
      ensures OccursAt(w, true, key, i) <==> Says(key, i, w)
    {
      OccursExactlyWhen(w, key, i);
    }
    assert forall w :: w in SENSITIVE_WORDS <==>
      w in {"password", "token", "secret", "aadhaar", "pan", "otp", "creditcard", "authorization"};
  }

  /** Two keys that differ in case only are both sensitive or both not. */
  lemma SensitiveInAnyCase(k: string, m: string)
    requires SameButCase(k, m)
    ensures IsSensitive(k) <==> IsSensitive(m)
  {
    forall i
      ensures Mentions(SENSITIVE_WORDS, k, i) <==> Mentions(SENSITIVE_WORDS, m, i)
    {
      forall w: string
        ensures OccursAt(w, true, k, i) <==> OccursAt(w, true, m, i)
      {
        OccursInAnyCase(w, k, m, i);
      }
    }
  }

  /** A listed word makes a key sensitive in whatever case it is written, and whatever stands around it. */
  lemma WordMakesSensitive(p: string, word: string, written: string, q: string)
    requires word in SENSITIVE_WORDS && SameButCase(word, written)
    ensures IsSensitive(p + written + q)
  {
    var key := p + written + q;
    assert key[|p|..|p| + |word|] == written;
    OccursExactlyWhen(word, key, |p|);
    assert Mentions(SENSITIVE_WORDS, key, |p|);
  }

  /** So the words are also found inside unrelated names: company fields are masked, because of "pan". */
  lemma CompanyFieldsAreMasked(suffix: string)
    ensures IsSensitive("company" + suffix)
  {
    var key := "company" + suffix;
    assert SENSITIVE_WORDS[4] == "pan" == key[3..6];
    assert OccursAt("pan", true, key, 3);
    assert Mentions(SENSITIVE_WORDS, key, 3);
  }

  /** The value under a sensitive key is replaced by the mask, whatever it is; under any other key it is masked in
      turn. */
  lemma ValuesUnderKeys(entries: seq<Entry>, i: nat)
    requires i < |entries|
    ensures Mask(Obj(entries)).Obj? && |Mask(Obj(entries)).entries| == |entries|
    ensures Mask(Obj(entries)).entries[i]
            == Entry(entries[i].key,
                     if IsSensitive(entries[i].key) then Str("***MASKED***") else Mask(entries[i].value))
  {
  }

  /** For example an access token, although the word in its key starts with a capital letter. */
  lemma AccessTokenIsMasked(v: Value)
    ensures Mask(Obj([Entry("accessToken", v)])) == Obj([Entry("accessToken", Str("***MASKED***"))])
  {
    assert SENSITIVE_WORDS[1] == "token";
    WordMakesSensitive("access", "token", "Token", "");
    assert "access" + "Token" + "" == "accessToken";
    ValuesUnderKeys([Entry("accessToken", v)], 0);
  }

  // ----- What masking hides

  datatype View =
    | Hidden                     // under a sensitive key
    | Nowhere
    | Leaf(v: Value)
    | Items(length: nat)
    | Fields(keys: seq<string>)

  function Look(v: Value): View {
    match v
    case Arr(items) => Items(|items|)
    case Obj(entries) => Fields(Keys(entries))
    case _ => Leaf(v)
  }

  function Keys(entries: seq<Entry>): seq<string> {
    seq(|entries|, i requires 0 <= i < |entries| => entries[i].key)
  }

  /** What can be seen in a value at the end of a path of positions, without looking under sensitive keys. */
  ghost function PublicAt(v: Value, path: seq<nat>): View
    decreases |path|
  {
    if path == [] then Look(v)
    else match v
      case Arr(items) => if path[0] < |items| then PublicAt(items[path[0]], path[1..]) else Nowhere
      case Obj(entries) =>
        if path[0] >= |entries| then Nowhere
        else if IsSensitive(entries[path[0]].key) then Hidden
        else PublicAt(entries[path[0]].value, path[1..])
      case _ => Nowhere
  }

  lemma {:induction false} MaskingKeepsPublic(v: Value, path: seq<nat>)
    ensures PublicAt(Mask(v), path) == PublicAt(v, path)
    decreases |path|
  {
    if path == [] {
      if v.Obj? {
        assert Keys(Mask(v).entries) == Keys(v.entries);
      }
    } else if v.Arr? && path[0] < |v.items| {
      MaskingKeepsPublic(v.items[path[0]], path[1..]);
    } else if v.Obj? && path[0] < |v.entries| {
      MaskingKeepsPublic(v.entries[path[0]].value, path[1..]);
    }
  }

  ghost predicate SamePublic(a: Value, b: Value) {
    forall path :: PublicAt(a, path) == PublicAt(b, path)
  }

  lemma SamePublicChild(a: Value, b: Value, i: nat)
    requires SamePublic(a, b)
    ensures a.Arr? && b.Arr? && i < |a.items| && i < |b.items| ==> SamePublic(a.items[i], b.items[i])
    ensures a.Obj? && b.Obj? && i < |a.entries| && i < |b.entries|
            && a.entries[i].key == b.entries[i].key && !IsSensitive(a.entries[i].key)
            ==> SamePublic(a.entries[i].value, b.entries[i].value)
  {
    forall path: seq<nat>
      ensures a.Arr? && b.Arr? && i < |a.items| && i < |b.items| ==>
                PublicAt(a.items[i], path) == PublicAt(b.items[i], path)
      ensures a.Obj? && b.Obj? && i < |a.entries| && i < |b.entries|
              && a.entries[i].key == b.entries[i].key && !IsSensitive(a.entries[i].key)
              ==> PublicAt(a.entries[i].value, path) == PublicAt(b.entries[i].value, path)
    {
      var longer := [i] + path;
      assert longer[1..] == path;
      assert PublicAt(a, longer) == PublicAt(b, longer);
    }
  }

  lemma {:induction false} PublicDecides(a: Value, b: Value)
    requires SamePublic(a, b)
    ensures Mask(a) == Mask(b)
    decreases a
  {
    assert PublicAt(a, []) == PublicAt(b, []);
    if a.Arr? {
      forall i | 0 <= i < |a.items|
        ensures Mask(a.items[i]) == Mask(b.items[i])
      {
        SamePublicChild(a, b, i);
        PublicDecides(a.items[i], b.items[i]);
      }
    } else if a.Obj? {
      assert |a.entries| == |Keys(a.entries)| == |b.entries|;
      forall i | 0 <= i < |a.entries|
        ensures MaskEntry(a.entries[i]) == MaskEntry(b.entries[i])
      {
        assert Keys(a.entries)[i] == Keys(b.entries)[i];
        if !IsSensitive(a.entries[i].key) {
          SamePublicChild(a, b, i);
          PublicDecides(a.entries[i].value, b.entries[i].value);
          MaskedEntry(a.entries[i]);
          MaskedEntry(b.entries[i]);
        }
      }
    }
  }

  lemma MaskedEntry(e: Entry)
    requires !IsSensitive(e.key)
    ensures MaskEntry(e) == Entry(e.key, Mask(e.value))
  {
  }

  /** The exact kernel: two values look alike in the log if and only if they agree everywhere except under
      sensitive keys. The log tells all of the rest and nothing of what those keys hold. */
  lemma MaskingHidesExactlyTheSensitive(a: Value, b: Value)
    ensures Mask(a) == Mask(b) <==> SamePublic(a, b)
  {
    if Mask(a) == Mask(b) {
      forall path: seq<nat>
        ensures PublicAt(a, path) == PublicAt(b, path)
      {
        MaskingKeepsPublic(a, path);
        MaskingKeepsPublic(b, path);
      }
    }
    if SamePublic(a, b) {
      PublicDecides(a, b);
    }
  }

  lemma MaskingTwiceIsMaskingOnce(v: Value)
    ensures Mask(Mask(v)) == Mask(v)
  {
    forall path: seq<nat>
      ensures PublicAt(Mask(v), path) == PublicAt(v, path)
    {
      MaskingKeepsPublic(v, path);
    }
    PublicDecides(Mask(v), v);
  }

  lemma SanitizingKeepsTheMask()
    ensures San.SanitizeString(MASK) == MASK
  {
    assert '<' !in MASK;
    San.OnlyTrims(MASK);
    San.TrimTrims(MASK);
  }

  lemma EntriesCommute(e: Entry)
    requires Mask(San.Sanitize(e.value)) == San.Sanitize(Mask(e.value))
    ensures MaskEntry(Entry(e.key, San.Sanitize(e.value)))
            == Entry(e.key, San.Sanitize(MaskEntry(e).value))
  {
    if IsSensitive(e.key) {
      SanitizingKeepsTheMask();
    } else {
      MaskedEntry(e);
      MaskedEntry(Entry(e.key, San.Sanitize(e.value)));
    }
  }

  /** A value can be sanitized before it is masked or after. */
  lemma {:induction false} MaskingCommutesWithSanitizing(v: Value)
    ensures Mask(San.Sanitize(v)) == San.Sanitize(Mask(v))
    decreases v
  {
    match v {
      case Arr(items) =>
        forall i | 0 <= i < |items| {
          MaskingCommutesWithSanitizing(items[i]);
        }
      case Obj(entries) =>
        forall i | 0 <= i < |entries|
          ensures Mask(San.Sanitize(v)).entries[i] == San.Sanitize(Mask(v)).entries[i]
        {
          MaskingCommutesWithSanitizing(entries[i].value);
          EntriesCommute(entries[i]);
        }
      case _ =>
    }
  }
}
