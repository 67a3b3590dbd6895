/** The member API's key normaliser: `toCamelCase` rewrites every property
    name of a JSON payload with `normalizeKey` (src/api/member.ts). */
module MemberApi {
  import opened Wrappers
  import opened Json

  // ---------------------------------------------------------------------
  // Character classes of the two regular expressions, ASCII only
  // ---------------------------------------------------------------------

  predicate IsSeparator(c: char) { c == '-' || c == '_' }
  predicate IsAsciiUpper(c: char) { 'A' <= c <= 'Z' }
  predicate IsAsciiLower(c: char) { 'a' <= c <= 'z' }
  /** `[a-zA-Z0-9]` */
  predicate IsAsciiAlnum(c: char) { IsAsciiUpper(c) || IsAsciiLower(c) || IsDigit(c) }

  function LowerChar(c: char): (d: char)
    ensures IsAsciiUpper(c) ==> IsAsciiLower(d)
    ensures !IsAsciiUpper(c) ==> d == c
  {
    if IsAsciiUpper(c) then c - 'A' + 'a' else c
  }

  function UpperChar(c: char): (d: char)
    ensures IsAsciiLower(c) ==> IsAsciiUpper(d)
    ensures !IsAsciiLower(c) ==> d == c
  {
    if IsAsciiLower(c) then c - 'a' + 'A' else c
  }

  /** `s.toLowerCase()` on ASCII text. */
  function ToLower(s: string): (r: string)
    ensures |r| == |s|
    ensures forall i :: 0 <= i < |s| ==> r[i] == LowerChar(s[i])
  {
    if s == [] then [] else [LowerChar(s[0])] + ToLower(s[1..])
  }

  /** `/^[A-Z0-9_]+$/.test(key)` */
  predicate IsUpperKey(key: string)
  {
    |key| > 0 && forall i :: 0 <= i < |key| ==> IsAsciiUpper(key[i]) || IsDigit(key[i]) || key[i] == '_'
  }

  /** Length of the run of `-`/`_` at the start of `s` (greedy `[-_]+`). */
  function SeparatorRun(s: string): (n: nat)
  {
    if s != [] && IsSeparator(s[0]) then 1 + SeparatorRun(s[1..]) else 0
  }

  /** The run is maximal. */
  lemma {:induction false} SeparatorRunMaximal(s: string)
    ensures SeparatorRun(s) <= |s|
    ensures forall i :: 0 <= i < SeparatorRun(s) ==> IsSeparator(s[i])
    ensures SeparatorRun(s) < |s| ==> !IsSeparator(s[SeparatorRun(s)])
  {
    if s != [] && IsSeparator(s[0]) {
      SeparatorRunMaximal(s[1..]);
    }
  }

  /** `s.replace(/[-_]+([a-zA-Z0-9])/g, (_, g) => g.toUpperCase())`: the
      global replace scans left to right; where a separator run is followed by
      an ASCII letter or digit, run and character become that character
      upper-cased and the scan resumes after it; anywhere else one character
      is copied and the scan moves on by one. */
  function Collapse(s: string): (r: string)
    ensures |r| <= |s|
    decreases |s|
  {
    if s == [] then []
    else
      var n := SeparatorRun(s);
      if 0 < n < |s| && IsAsciiAlnum(s[n]) then [UpperChar(s[n])] + Collapse(s[n + 1..])
      else [s[0]] + Collapse(s[1..])
  }

  /** `s.charAt(0).toLowerCase() + s.slice(1)` */
  function LowerFirst(s: string): (r: string)
    ensures |r| == |s|
    ensures r != [] ==> r[0] == LowerChar(s[0]) && r[1..] == s[1..]
  {
    if s == [] then [] else [LowerChar(s[0])] + s[1..]
  }

  /** `normalizeKey` (src/api/member.ts:5-14). */
  function NormalizeKey(key: string): (r: string)
    ensures |r| <= |key|
  {
    if IsUpperKey(key) then ToLower(key) else LowerFirst(Collapse(key))
  }

  // ---------------------------------------------------------------------
  // What the separator pass does
  // ---------------------------------------------------------------------

  predicate AllSeparators(s: string) { forall i :: 0 <= i < |s| ==> IsSeparator(s[i]) }
  predicate NoSeparators(s: string) { forall i :: 0 <= i < |s| ==> !IsSeparator(s[i]) }

  /** No `[-_]+[a-zA-Z0-9]` occurrence is left in `r`. */
  predicate NoSeparatorBeforeAlnum(r: string)
  {
    forall i :: 0 <= i < |r| - 1 && IsSeparator(r[i]) ==> !IsAsciiAlnum(r[i + 1])
  }

  /** Text without separators passes the separator pass unchanged. */
  lemma {:induction false} CollapseNoSeparators(s: string)
    requires NoSeparators(s)
    ensures Collapse(s) == s
  {
    if s != [] {
      CollapseNoSeparators(s[1..]);
    }
  }

  /** A run of separators that nothing follows is kept. */
  lemma {:induction false} CollapseTrailingRun(run: string)
    requires AllSeparators(run)
    ensures Collapse(run) == run
  {
    if run != [] {
      assert SeparatorRun(run) == |run| by { SeparatorRunAll(run); }
      CollapseTrailingRun(run[1..]);
    }
  }

  lemma {:induction false} SeparatorRunAll(run: string)
    requires AllSeparators(run)
    ensures SeparatorRun(run) == |run|
  {
    if run != [] {
      SeparatorRunAll(run[1..]);
    }
  }

  /** A separator run followed by a letter or digit collapses into that
      character upper-cased. */
  lemma {:induction false} CollapseRunBeforeAlnum(run: string, c: char, rest: string)
    requires |run| > 0 && AllSeparators(run) && IsAsciiAlnum(c)
    ensures Collapse(run + [c] + rest) == [UpperChar(c)] + Collapse(rest)
  {
    var s := run + [c] + rest;
    SeparatorRunPrefix(run, [c] + rest);
    assert s == run + ([c] + rest);
    assert s[|run|] == c;
    assert s[|run| + 1..] == rest;
  }

  lemma {:induction false} SeparatorRunPrefix(run: string, t: string)
    requires AllSeparators(run) && (t == [] || !IsSeparator(t[0]))
    ensures SeparatorRun(run + t) == |run|
  {
    if run != [] {
      assert (run + t)[1..] == run[1..] + t;
      SeparatorRunPrefix(run[1..], t);
    } else {
      assert run + t == t;
    }
  }

  /** One step of the scan: the character it emits and the text it resumes
      on. */
  function Advance(s: string): (r: (char, string))
    requires s != []
    ensures |r.1| < |s|
  {
    var n := SeparatorRun(s);
    if 0 < n < |s| && IsAsciiAlnum(s[n]) then (UpperChar(s[n]), s[n + 1..]) else (s[0], s[1..])
  }

  lemma CollapseAdvance(s: string)
    requires s != []
    ensures Collapse(s) == [Advance(s).0] + Collapse(Advance(s).1)
  {
  }

  /** A step inside text that does not end in a separator never looks past
      that text, and resumes on text that still does not. */
  lemma AdvanceAppend(a: string, b: string)
    requires a != [] && !IsSeparator(a[|a| - 1])
    ensures Advance(a + b) == (Advance(a).0, Advance(a).1 + b)
    ensures Advance(a).1 == [] || !IsSeparator(Advance(a).1[|Advance(a).1| - 1])
  {
    var s := a + b;
    SeparatorRunAppend(a, b);
    var n := SeparatorRun(a);
    assert s[n] == a[n];
    var rest := Advance(a).1;
    assert s[|a| - |rest|..] == rest + b;
  }

  /** The pass works word by word: text that does not end in a separator is
      rewritten independently of what follows it. */
  lemma {:induction false} CollapseAppend(a: string, b: string)
    requires a == [] || !IsSeparator(a[|a| - 1])
    ensures Collapse(a + b) == Collapse(a) + Collapse(b)
    decreases |a|
  {
    if a == [] {
      assert a + b == b;
      assert Collapse(a) == [];
    } else {
      var head, rest := Advance(a).0, Advance(a).1;
      AdvanceAppend(a, b);
      CollapseAdvance(a);
      CollapseAdvance(a + b);
      CollapseAppend(rest, b);
      ConsAppend(head, Collapse(rest), Collapse(b));
    }
  }

  /** Associativity of one cons, proved apart: asserted inside
      `CollapseAppend` it exhausts the solver there. */
  lemma ConsAppend(c: char, x: string, y: string)
    ensures [c] + (x + y) == ([c] + x) + y
  {
  }

  lemma {:induction false} SeparatorRunAppend(a: string, b: string)
    requires a != [] && !IsSeparator(a[|a| - 1])
    ensures SeparatorRun(a + b) == SeparatorRun(a) < |a|
  {
    if IsSeparator(a[0]) {
      assert (a + b)[1..] == a[1..] + b;
      SeparatorRunAppend(a[1..], b);
    }
  }

  /** After the pass no separator run is followed by a letter or digit: every
      replaceable occurrence has been replaced. */
  lemma {:induction false} CollapseLeavesNoMatch(s: string)
    ensures NoSeparatorBeforeAlnum(Collapse(s))
    decreases |s|
  {
    if s != [] {
      var n := SeparatorRun(s);
      if 0 < n < |s| && IsAsciiAlnum(s[n]) {
        CollapseLeavesNoMatch(s[n + 1..]);
      } else {
        var t := s[1..];
        CollapseLeavesNoMatch(t);
        if IsSeparator(s[0]) && t != [] {
          // the run continues in t, or t starts with the character that
          // stopped it; either way the pass copies t[0], which is not a
          // letter or digit
          SeparatorRunMaximal(s);
          assert SeparatorRun(t) == n - 1;
          assert n == |s| || t[n - 1] == s[n];
          assert Collapse(t) == [t[0]] + Collapse(t[1..]);
          assert !IsAsciiAlnum(t[0]);
        }
      }
    }
  }

  // ---------------------------------------------------------------------
  // normalizeKey
  // ---------------------------------------------------------------------

  /** Keys made only of `[A-Z0-9_]` come out as their lower-case form, one
      character for one character, with no upper-case letter left. */
  lemma NormalizeKeyUpper(key: string)
    requires IsUpperKey(key)
    ensures |NormalizeKey(key)| == |key|
    ensures forall i :: 0 <= i < |key| ==> NormalizeKey(key)[i] == LowerChar(key[i])
    ensures forall i :: 0 <= i < |key| ==> !IsAsciiUpper(NormalizeKey(key)[i])
  {
  }

  /** Any other key: the separator pass leaves no `[-_]+[a-zA-Z0-9]` behind,
      never lengthens the key, and only the first character is then
      lower-cased. */
  lemma NormalizeKeyOther(key: string)
    requires !IsUpperKey(key)
    ensures var r := NormalizeKey(key);
      && |r| == |Collapse(key)| <= |key|
      && (r != [] ==> !IsAsciiUpper(r[0]) && r[1..] == Collapse(key)[1..])
      && NoSeparatorBeforeAlnum(r)
  {
    var c := Collapse(key);
    CollapseLeavesNoMatch(key);
    var r := NormalizeKey(key);
    if c != [] {
      assert !IsSeparator(c[0]) ==> !IsSeparator(r[0]);
      forall i | 0 <= i < |r| - 1 && IsSeparator(r[i]) ensures !IsAsciiAlnum(r[i + 1]) {
        assert r[i] == c[i] && r[i + 1] == c[i + 1];
      }
    }
  }

  /** A key that already starts with a lower-case letter and has no `-` or
      `_` is returned unchanged. */
  lemma NormalizeKeyCamelUnchanged(key: string)
    requires |key| > 0 && IsAsciiLower(key[0]) && NoSeparators(key)
    ensures NormalizeKey(key) == key
  {
    assert !IsUpperKey(key);
    CollapseNoSeparators(key);
  }

  /** A key with one separator between two separator-free words loses the
      separator and has the second word's first character upper-cased. */
  lemma CollapseTwoWords(k: string, i: nat)
    requires 0 < i && i + 1 < |k| && IsSeparator(k[i]) && IsAsciiAlnum(k[i + 1])
    requires NoSeparators(k[..i]) && NoSeparators(k[i + 2..])
    ensures Collapse(k) == k[..i] + ([UpperChar(k[i + 1])] + k[i + 2..])
  {
    var a, c := k[..i], k[i + 2..];
    var t := [k[i]] + [k[i + 1]] + c;
    assert k == a + t;
    CollapseNoSeparators(a);
    CollapseNoSeparators(c);
    CollapseRunBeforeAlnum([k[i]], k[i + 1], c);
    CollapseAppend(a, t);
  }

  // Worked keys. Each takes the key as a parameter fixed by its requires, so
  // that the proof goes through the lemmas above instead of evaluating the
  // regular expressions character by character.

  /** Upper-case keys of the member payload. */
  lemma UpperKeyExamples(dob: string, hsBaptised: string)
    requires dob == "DOB" && hsBaptised == "HSBAPTISED"
    ensures NormalizeKey(dob) == "dob"
    ensures NormalizeKey(hsBaptised) == "hsbaptised"
  {
    assert IsUpperKey(dob) && IsUpperKey(hsBaptised);
    NormalizeKeyUpper(dob);
    NormalizeKeyUpper(hsBaptised);
  }

  lemma FirstNameExample(k: string)
    requires k == "First-Name"
    ensures NormalizeKey(k) == "firstName"
  {
    var c := k[..5] + ([UpperChar(k[6])] + k[7..]);
    assert c == "FirstName";
    assert LowerFirst(c) == "firstName";
    assert !IsUpperKey(k) by { assert k[1] == 'i'; }
    CollapseTwoWords(k, 5);
  }

  lemma NestedKeyExample(k: string)
    requires k == "Nested_Key"
    ensures NormalizeKey(k) == "nestedKey"
  {
    var c := k[..6] + ([UpperChar(k[7])] + k[8..]);
    assert c == "NestedKey";
    assert LowerFirst(c) == "nestedKey";
    assert !IsUpperKey(k) by { assert k[1] == 'e'; }
    CollapseTwoWords(k, 6);
  }

  /** PascalCase is not split into words: only the first letter changes. */
  lemma PascalCaseExample(k: string)
    requires k == "ProfCatId"
    ensures NormalizeKey(k) == "profCatId"
  {
    assert LowerFirst(k) == "profCatId";
    assert !IsUpperKey(k) by { assert k[1] == 'r'; }
    CollapseNoSeparators(k);
  }

  lemma SecondPassOfHsBaptised(k: string)
    requires k == "hs_baptised"
    ensures NormalizeKey(k) == "hsBaptised"
  {
    var c := k[..2] + ([UpperChar(k[3])] + k[4..]);
    assert c == "hsBaptised";
    assert LowerFirst(c) == "hsBaptised";
    assert !IsUpperKey(k) by { assert k[0] == 'h'; }
    CollapseTwoWords(k, 2);
  }

  /** normalizeKey is not idempotent: the upper-case branch keeps the
      underscore, which a second pass then removes. */
  lemma NotIdempotentUpperKey(k: string)
    requires k == "HS_BAPTISED"
    ensures NormalizeKey(k) == "hs_baptised"
    ensures NormalizeKey(NormalizeKey(k)) == "hsBaptised"
    ensures NormalizeKey(NormalizeKey(k)) != NormalizeKey(k)
  {
    assert IsUpperKey(k);
    NormalizeKeyUpper(k);
    SecondPassOfHsBaptised(NormalizeKey(k));
  }

  /** normalizeKey is not idempotent: the separator pass can produce a key
      that the upper-case branch then lower-cases. */
  lemma NotIdempotentSeparatorKey(k: string)
    requires k == "1-a"
    ensures NormalizeKey(k) == "1A"
    ensures NormalizeKey(NormalizeKey(k)) == "1a"
    ensures NormalizeKey(NormalizeKey(k)) != NormalizeKey(k)
  {
    var c := k[..1] + ([UpperChar(k[2])] + k[3..]);
    assert c == "1A";
    assert LowerFirst(c) == "1A";
    assert !IsUpperKey(k) by { assert k[1] == '-'; }
    CollapseTwoWords(k, 1);
    assert IsUpperKey(c);
    NormalizeKeyUpper(c);
    assert ToLower(c) == "1a";
  }

  // ---------------------------------------------------------------------
  // toCamelCase
  // ---------------------------------------------------------------------

  /** The value of the LAST pair named `k`, or `undefined`. */
  function LastValue<V>(pairs: seq<(string, V)>, k: string): (r: Option<V>)
    ensures r.Some? ==> (k, r.value) in pairs
  {
    if pairs == [] then None
    else if pairs[|pairs| - 1].0 == k then Some(pairs[|pairs| - 1].1)
    else LastValue(pairs[..|pairs| - 1], k)
  }

  lemma KeySetSnoc<V>(es: seq<(string, V)>, e: (string, V))
    ensures KeySet(es + [e]) == KeySet(es) + {e.0}
  {
    if es != [] {
      assert (es + [e])[1..] == es[1..] + [e];
      KeySetSnoc(es[1..], e);
    }
  }

  /** The accumulator of the object branch's `reduce`: starting from `{}`,
      `acc[k] = v` for each pair in order. It has one entry per distinct
      name, in order of first appearance, holding the last value given for
      that name. */
  function AssignAll<V>(pairs: seq<(string, V)>): (acc: seq<(string, V)>)
    ensures KeySet(acc) == KeySet(pairs)
    ensures DistinctKeys(acc)
    ensures forall k :: Lookup(acc, k) == LastValue(pairs, k)
    ensures forall e :: e in acc ==> e in pairs
  {
    if pairs == [] then []
    else
      var init, last := pairs[..|pairs| - 1], pairs[|pairs| - 1];
      KeySetSnoc(init, last);
      assert pairs == init + [last];
      PutShape(AssignAll(init), last.0, last.1);
      Put(AssignAll(init), last.0, last.1)
  }

  /** `toCamelCase` (src/api/member.ts:4-32): arrays are mapped element by
      element, objects are rebuilt by assigning each normalised name in turn
      into a fresh object, everything else is returned as it is. The result
      keeps the kind of the value and the length of an array, never has more
      entries than the object it came from, and has distinct names at every
      level. */
  function ToCamelCase(v: Value): (r: Value)
    ensures r.Arr? <==> v.Arr?
    ensures r.Obj? <==> v.Obj?
    ensures v.Arr? ==> |r.items| == |v.items|
    ensures v.Obj? ==> |r.entries| <= |v.entries|
    ensures WellFormed(r)
  {
    match v
    case Arr(items) => Arr(seq(|items|, i requires 0 <= i < |items| => ToCamelCase(items[i])))
    case Obj(entries) =>
      var pairs := seq(|entries|, i requires 0 <= i < |entries| =>
                         (NormalizeKey(entries[i].0), ToCamelCase(entries[i].1)));
      var acc := AssignAll(pairs);
      KeySetSize(acc);
      KeySetSize(pairs);
      assert forall i :: 0 <= i < |acc| ==> WellFormed(acc[i].1) by {
        forall i | 0 <= i < |acc| ensures WellFormed(acc[i].1) {
          assert acc[i] in pairs;
        }
      }
      Obj(acc)
    case _ => v
  }

  /** Scalars and `null` come back unchanged. */
  lemma ToCamelCaseScalar(v: Value)
    requires !v.Arr? && !v.Obj?
    ensures ToCamelCase(v) == v
  {
  }

  /** An array comes back as an array of the same length whose element i is
      the normalisation of element i. */
  lemma ToCamelCaseArray(items: seq<Value>)
    ensures ToCamelCase(Arr(items)).Arr?
    ensures |ToCamelCase(Arr(items)).items| == |items|
    ensures forall i :: 0 <= i < |items| ==> ToCamelCase(Arr(items)).items[i] == ToCamelCase(items[i])
  {
  }

  /** The value of the LAST entry whose name normalises to `k`, normalised:
      what the object branch keeps under `k`. */
  function LastNormalizedTo(entries: Entries, k: string): (r: Option<Value>)
    ensures r.Some? ==> exists i :: 0 <= i < |entries| && NormalizeKey(entries[i].0) == k && r.value == ToCamelCase(entries[i].1)
  {
    if entries == [] then None
    else
      var last := entries[|entries| - 1];
      if NormalizeKey(last.0) == k then Some(ToCamelCase(last.1))
      else LastNormalizedTo(entries[..|entries| - 1], k)
  }

  /** The normalised names of an object's entries. */
  function KeyImage(entries: Entries): (r: set<string>)
  {
    set k | k in KeySet(entries) :: NormalizeKey(k)
  }

  predicate InjectiveOn(keys: set<string>)
  {
    forall a, b :: a in keys && b in keys && NormalizeKey(a) == NormalizeKey(b) ==> a == b
  }

  lemma {:induction false} PairsLastValue(entries: Entries, pairs: seq<(string, Value)>, k: string)
    requires |pairs| == |entries|
    requires forall i :: 0 <= i < |entries| ==> pairs[i] == (NormalizeKey(entries[i].0), ToCamelCase(entries[i].1))
    ensures LastValue(pairs, k) == LastNormalizedTo(entries, k)
  {
    if entries != [] {
      PairsLastValue(entries[..|entries| - 1], pairs[..|pairs| - 1], k);
    }
  }

  lemma {:induction false} PairsKeySet(entries: Entries, pairs: seq<(string, Value)>)
    requires |pairs| == |entries|
    requires forall i :: 0 <= i < |entries| ==> pairs[i].0 == NormalizeKey(entries[i].0)
    ensures KeySet(pairs) == KeyImage(entries)
  {
    if entries != [] {
      PairsKeySet(entries[1..], pairs[1..]);
      assert KeySet(entries) == {entries[0].0} + KeySet(entries[1..]);
    }
  }

  lemma PairsDistinct(entries: Entries, pairs: seq<(string, Value)>)
    requires |pairs| == |entries|
    requires forall i :: 0 <= i < |entries| ==> pairs[i].0 == NormalizeKey(entries[i].0)
    requires DistinctKeys(entries) && InjectiveOn(KeySet(entries))
    ensures DistinctKeys(pairs)
  {
    forall i, j | 0 <= i < j < |pairs| ensures pairs[i].0 != pairs[j].0 {
      assert entries[i] in entries && entries[j] in entries;
    }
  }

  /** An object comes back with exactly the normalised names of its entries;
      under each name, the normalised value of the last entry whose name
      normalises to it (later entries win a collision); with no more entries
      than it had, and as many when no two names collide. */
  lemma ToCamelCaseObject(entries: Entries)
    ensures ToCamelCase(Obj(entries)).Obj?
    ensures KeySet(ToCamelCase(Obj(entries)).entries) == KeyImage(entries)
    ensures forall k :: Lookup(ToCamelCase(Obj(entries)).entries, k) == LastNormalizedTo(entries, k)
    ensures |ToCamelCase(Obj(entries)).entries| == |KeyImage(entries)| <= |entries|
    ensures DistinctKeys(entries) && InjectiveOn(KeySet(entries)) ==>
              |ToCamelCase(Obj(entries)).entries| == |entries|
  {
    var pairs := seq(|entries|, i requires 0 <= i < |entries| =>
                       (NormalizeKey(entries[i].0), ToCamelCase(entries[i].1)));
    var acc := AssignAll(pairs);
    assert ToCamelCase(Obj(entries)).entries == acc;
    PairsKeySet(entries, pairs);
    forall k ensures Lookup(acc, k) == LastNormalizedTo(entries, k) {
      PairsLastValue(entries, pairs, k);
    }
    KeySetSize(acc);
    KeySetSize(pairs);
    if DistinctKeys(entries) && InjectiveOn(KeySet(entries)) {
      PairsDistinct(entries, pairs);
    }
  }

  /** One more pair is one more assignment into the accumulator. */
  lemma AssignAllSnoc<V>(pairs: seq<(string, V)>, i: nat)
    requires i < |pairs|
    ensures AssignAll(pairs[..i + 1]) == Put(AssignAll(pairs[..i]), pairs[i].0, pairs[i].1)
  {
    assert pairs[..i + 1][..i] == pairs[..i];
  }

  /** The object branch as the source runs it: `reduce` over the entries,
      assigning each normalised name into one accumulator object. */
  method ReduceEntries(entries: Entries) returns (acc: Entries)
    ensures Obj(acc) == ToCamelCase(Obj(entries))
  {
    ghost var pairs := seq(|entries|, i requires 0 <= i < |entries| =>
                             (NormalizeKey(entries[i].0), ToCamelCase(entries[i].1)));
    acc := [];
    for i := 0 to |entries|
      invariant acc == AssignAll(pairs[..i])
    {
      var (key, nestedValue) := entries[i];
      AssignAllSnoc(pairs, i);
      acc := Put(acc, NormalizeKey(key), ToCamelCase(nestedValue));
    }
    assert pairs[..|entries|] == pairs;
  }

  /** Normalisation is not idempotent on values either. */
  lemma ToCamelCaseNotIdempotent(k: string)
    requires k == "HS_BAPTISED"
    ensures ToCamelCase(Obj([(k, Bool(true))])) == Obj([("hs_baptised", Bool(true))])
    ensures ToCamelCase(ToCamelCase(Obj([(k, Bool(true))]))) == Obj([("hsBaptised", Bool(true))])
  {
    NotIdempotentUpperKey(k);
    ToCamelCaseObject([(k, Bool(true))]);
    ToCamelCaseObject([("hs_baptised", Bool(true))]);
  }
}
