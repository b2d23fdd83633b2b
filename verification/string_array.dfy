/**
 * The string layer of array.c: arrays whose handles are strings. A string
 * handle is modelled by its content (the bytes before the terminator), one
 * char per byte and with no '\0' in it, so strdup yields an equal value and
 * strlen/memcmp become length and equality.
 * strlen, strstr and strdup are undefined on NULL, so every operation here
 * that reads the stored strings requires the occupied slots to hold strings.
 */
module StringArrays {
  import opened Wrappers
  import opened DynArrays
  import opened Tokenizer
  import opened Align

  /** No occupied slot is NULL. */
  predicate AllStrings(slots: seq<Option<string>>)
  {
    forall i :: 0 <= i < |slots| ==> slots[i].Some?
  }

  /** The slots holding the given strings, in order. */
  function AsSlots(ts: seq<string>): (slots: seq<Option<string>>)
    ensures |slots| == |ts|
    ensures forall i :: 0 <= i < |ts| ==> slots[i] == Some(ts[i])
  {
    seq(|ts|, i requires 0 <= i < |ts| => Some(ts[i]))
  }

  /** The set of characters of the delimiter string: all strtok_r looks at. */
  function DelimiterSet(splitOn: string): (d: set<char>)
    ensures forall c :: c in d <==> c in splitOn
  {
    set c | c in splitOn
  }

  /** array_new(8) holds exactly 8 slots: 8 is its own power-of-two ceiling. */
  lemma InitialSplitCapacity()
    ensures CeilPow2(8) == 8
  {
    assert CeilPow2(8) == 2 * CeilPow2(4) == 4 * CeilPow2(2) == 8;
  }

  /**
   * array_from_split_string: a new array (initial capacity 8) of copies of
   * the tokens of text, in order; an empty array when text is NULL.
   */
  method FromSplitString(text: Option<string>, splitOn: string) returns (items: DynArray<string>)
    ensures fresh(items) && fresh(items.data) && items.Valid()
    ensures items.capacity == Grown(8, |items.Contents()|)
    ensures text.None? ==> items.Contents() == []
    ensures text.Some? ==> items.Contents() == AsSlots(Tokens(text.value, DelimiterSet(splitOn)))
  {
    items := new DynArray.New(8);
    InitialSplitCapacity();
    if text.None? {
      return;
    }
    var d := DelimiterSet(splitOn);
    var rest := text.value;
    var next := NextToken(rest, d);
    ghost var done: seq<string> := [];
    while next.Some?
      invariant items.Valid() && fresh(items) && fresh(items.data)
      invariant items.capacity == Grown(8, items.count)
      invariant next == NextToken(rest, d)
      invariant done + Tokens(rest, d) == Tokens(text.value, d)
      invariant items.Contents() == AsSlots(done)
      decreases |rest|
    {
      var token := next.value.token;
      AddToken(items, token);
      TokensUnfold(rest, d);
      SplitStep(done, token, Tokens(next.value.rest, d));
      done := done + [token];
      rest := next.value.rest;
      next := NextToken(rest, d);
    }
    TokensUnfold(rest, d);
  }

  /**
   * One iteration of array_from_split_string: append the next token to the
   * array grown from array_new(8), as array_add does.
   */
  method AddToken(items: DynArray<string>, token: string)
    requires items.Valid() && items.capacity == Grown(8, items.count)
    modifies items, items.data
    ensures items.Valid() && items.capacity == Grown(8, items.count)
    ensures items.data == old(items.data) || fresh(items.data)
    ensures items.Contents() == old(items.Contents()) + [Some(token)]
  {
    ghost var count, capacity := items.count, items.capacity;
    items.Add(Some(token));
    GrownAfterAdd(8, count, capacity, items.capacity);
  }

  /** Moving one token from the pending list to the stored slots. */
  lemma SplitStep(done: seq<string>, token: string, pending: seq<string>)
    ensures AsSlots(done + [token]) == AsSlots(done) + [Some(token)]
    ensures (done + [token]) + pending == done + ([token] + pending)
  {
  }

  /** A concatenation begins with its first part. */
  lemma PrefixOfConcat<T>(a: seq<T>, b: seq<T>)
    ensures (a + b)[..|a|] == a
  {
  }

  /**
   * array_append_duplicating_strings, with the loop bound read once: append
   * a copy of every string toAdd holds on entry, in order. For distinct
   * arrays this is the C loop, since nothing changes toAdd's count; when
   * toAdd is items itself the strings are duplicated once (the C as written
   * does not end, see SelfAppendAsWritten).
   */
  method AppendDuplicatingStrings(items: DynArray<string>, toAdd: DynArray<string>)
    requires items.Valid() && toAdd.Valid() && AllStrings(toAdd.Contents())
    requires items == toAdd || items.data != toAdd.data
    modifies items, items.data
    ensures items.Valid()
    ensures items.data == old(items.data) || fresh(items.data)
    ensures items.Contents() == old(items.Contents()) + old(toAdd.Contents())
    ensures items.capacity == Grown(old(items.capacity), |items.Contents()|)
    ensures items != toAdd ==> toAdd.Valid() && toAdd.Contents() == old(toAdd.Contents())
  {
    ghost var added, before := toAdd.Contents(), items.Contents();
    ghost var initial := items.capacity;
    var bound := toAdd.count;
    var index := 0;
    while index < bound
      invariant index <= bound == |added|
      invariant items.Valid() && toAdd.Valid()
      invariant items == toAdd || items.data != toAdd.data
      invariant items.data == old(items.data) || fresh(items.data)
      invariant items != toAdd ==> toAdd.Contents() == added
      invariant bound <= toAdd.count && toAdd.Contents()[..bound] == added
      invariant items == toAdd ==> before == added
      invariant items.Contents() == before + added[..index]
      invariant items.capacity == Grown(initial, items.count)
    {
      AppendDuplicate(items, toAdd, index, initial);
      assert added[..index + 1] == added[..index] + [added[index]];
      if items == toAdd {
        PrefixOfConcat(added, added[..index + 1]);
      }
      index := index + 1;
    }
    assert added[..index] == added;
  }

  /**
   * One iteration of array_append_duplicating_strings: append a copy of the
   * string at index of toAdd (which may be items itself), growing the
   * capacity as array_add does.
   */
  method AppendDuplicate(items: DynArray<string>, toAdd: DynArray<string>, index: nat, ghost initial: nat)
    requires items.Valid() && toAdd.Valid() && index < toAdd.count
    requires toAdd.Contents()[index].Some?
    requires items == toAdd || items.data != toAdd.data
    requires 1 <= initial && items.capacity == Grown(initial, items.count)
    modifies items, items.data
    ensures items.Valid() && toAdd.Valid()
    ensures items == toAdd || items.data != toAdd.data
    ensures items.data == old(items.data) || fresh(items.data)
    ensures items.Contents() == old(items.Contents()) + [old(toAdd.Contents())[index]]
    ensures items.capacity == Grown(initial, items.count)
    ensures items != toAdd ==> toAdd.Contents() == old(toAdd.Contents())
  {
    var original := toAdd.Element(index);
    ghost var count, capacity := items.count, items.capacity;
    items.Add(Some(original.value));
    GrownAfterAdd(initial, count, capacity, items.capacity);
  }

  /**
   * array_append_duplicating_strings(items, items) as written, run for steps
   * iterations: each array_add raises the count that bounds the loop, so
   * after any number of iterations the loop condition still holds and the
   * loop never ends.
   */
  method SelfAppendAsWritten(items: DynArray<string>, steps: nat) returns (index: nat)
    requires items.Valid() && AllStrings(items.Contents()) && items.count > 0
    modifies items, items.data
    ensures items.Valid() && index == steps
    ensures items.count == old(items.count) + steps
    ensures index < items.count
  {
    index := 0;
    while index < steps
      invariant index <= steps
      invariant items.Valid() && AllStrings(items.Contents())
      invariant items.count == old(items.count) + index
      invariant items.data == old(items.data) || fresh(items.data)
    {
      assert index < items.count;
      var original := items.Element(index);
      items.Add(Some(original.value));
      index := index + 1;
    }
  }

  /** The intended array_contains_string: some stored string is byte-for-byte s. */
  predicate HasString(slots: seq<Option<string>>, s: string)
  {
    Some(s) in slots
  }

  /**
   * array_contains_string, as its documentation promises: true exactly when
   * some stored string has the length of s and the same bytes.
   */
  method ContainsString(items: DynArray<string>, s: string) returns (found: bool)
    requires items.Valid() && AllStrings(items.Contents())
    ensures found <==> HasString(items.Contents(), s)
  {
    var outerLength := |s|;
    var index := 0;
    while index < items.count
      invariant index <= items.count
      invariant !HasString(items.data[..index], s)
    {
      var inner := items.data[index].value;
      if outerLength != |inner| {
        index := index + 1;
        continue;
      }
      if inner == s {
        return true;
      }
      index := index + 1;
    }
    return false;
  }

  /**
   * What array_contains_string computes as written: memcmp returns zero on
   * equal bytes, and the code returns true on a non-zero result, so it finds
   * a stored string of the same length whose bytes differ.
   */
  predicate InvertedMatch(slots: seq<Option<string>>, s: string)
    requires AllStrings(slots)
  {
    exists i :: 0 <= i < |slots| && |slots[i].value| == |s| && slots[i].value != s
  }

  /** array_contains_string as written, with the inverted memcmp test. */
  method ContainsStringAsWritten(items: DynArray<string>, s: string) returns (found: bool)
    requires items.Valid() && AllStrings(items.Contents())
    ensures found <==> InvertedMatch(items.Contents(), s)
  {
    var outerLength := |s|;
    var index := 0;
    while index < items.count
      invariant index <= items.count
      invariant forall i :: 0 <= i < index ==> |items.data[i].value| != |s| || items.data[i].value == s
    {
      var inner := items.data[index].value;
      if outerLength != |inner| {
        index := index + 1;
        continue;
      }
      if inner != s {
        assert items.Contents()[index] == items.data[index];
        return true;
      }
      index := index + 1;
    }
    return false;
  }

  /**
   * The inverted test misses the string it is asked for and reports one it
   * is not: ["One"] does not contain "One" as written, ["Two"] does.
   */
  lemma InvertedMatchCounterexample()
    ensures HasString([Some("One")], "One") && !InvertedMatch([Some("One")], "One")
    ensures !HasString([Some("Two")], "One") && InvertedMatch([Some("Two")], "One")
  {
    assert |"Two"| == |"One"| && "Two" != "One";
    assert [Some("Two")][0].value == "Two";
  }

  /** The intended array_contains_any_string: some string of strings is stored in slots. */
  predicate HasAnyString(slots: seq<Option<string>>, strings: seq<Option<string>>)
    requires AllStrings(strings)
  {
    exists k :: 0 <= k < |strings| && HasString(slots, strings[k].value)
  }

  /**
   * What array_contains_any_string computes as written: it calls the
   * as-written array_contains_string, so it inherits the inverted test.
   */
  predicate InvertedAnyMatch(slots: seq<Option<string>>, strings: seq<Option<string>>)
    requires AllStrings(slots) && AllStrings(strings)
  {
    exists k :: 0 <= k < |strings| && InvertedMatch(slots, strings[k].value)
  }

  /**
   * array_contains_any_string built on the corrected ContainsString: some
   * string of strings is contained in items.
   */
  method ContainsAnyString(items: DynArray<string>, strings: DynArray<string>) returns (found: bool)
    requires items.Valid() && AllStrings(items.Contents())
    requires strings.Valid() && AllStrings(strings.Contents())
    ensures found <==> HasAnyString(items.Contents(), strings.Contents())
  {
    var index := 0;
    while index < strings.count
      invariant index <= strings.count
      invariant forall k :: 0 <= k < index ==> !HasString(items.Contents(), strings.data[k].value)
    {
      var hit := ContainsString(items, strings.data[index].value);
      if hit {
        assert strings.Contents()[index] == strings.data[index];
        return true;
      }
      index := index + 1;
    }
    return false;
  }

  /** array_contains_any_string as written, calling the as-written search. */
  method ContainsAnyStringAsWritten(items: DynArray<string>, strings: DynArray<string>) returns (found: bool)
    requires items.Valid() && AllStrings(items.Contents())
    requires strings.Valid() && AllStrings(strings.Contents())
    ensures found <==> InvertedAnyMatch(items.Contents(), strings.Contents())
  {
    var index := 0;
    while index < strings.count
      invariant index <= strings.count
      invariant forall k :: 0 <= k < index ==> !InvertedMatch(items.Contents(), strings.data[k].value)
    {
      var hit := ContainsStringAsWritten(items, strings.data[index].value);
      if hit {
        assert strings.Contents()[index] == strings.data[index];
        return true;
      }
      index := index + 1;
    }
    return false;
  }

  /**
   * The inverted test carries over: as written, ["Two"] contains one of
   * ["One"] and ["One"] does not, the reverse of the intended answers.
   */
  lemma InvertedAnyMatchCounterexample()
    ensures !HasAnyString([Some("Two")], [Some("One")]) && InvertedAnyMatch([Some("Two")], [Some("One")])
    ensures HasAnyString([Some("One")], [Some("One")]) && !InvertedAnyMatch([Some("One")], [Some("One")])
  {
    InvertedMatchCounterexample();
    assert [Some("One")][0].value == "One";
    assert HasString([Some("One")], [Some("One")][0].value);
    assert InvertedMatch([Some("Two")], [Some("One")][0].value);
  }

  /** needle occurs in haystack at offset k. */
  predicate OccursAt(needle: string, haystack: string, k: nat)
  {
    k + |needle| <= |haystack| && haystack[k..k + |needle|] == needle
  }

  /** needle is a contiguous part of haystack. */
  ghost predicate IsSubstring(needle: string, haystack: string)
  {
    exists k :: OccursAt(needle, haystack, k)
  }

  /** The first occurrence of needle in haystack at or after offset from. */
  function FindFrom(haystack: string, needle: string, from: nat): (r: Option<nat>)
    decreases |haystack| - from
    ensures r.Some? ==> from <= r.value && OccursAt(needle, haystack, r.value)
    ensures r.Some? ==> forall k :: from <= k < r.value ==> !OccursAt(needle, haystack, k)
    ensures r.None? ==> forall k :: from <= k ==> !OccursAt(needle, haystack, k)
  {
    if from + |needle| > |haystack| then None
    else if haystack[from..from + |needle|] == needle then Some(from)
    else FindFrom(haystack, needle, from + 1)
  }

  /**
   * strstr, section 7.24.5.7 of ISO C11: the offset of the first occurrence
   * of needle in haystack, or None (a NULL result) when there is none.
   */
  function Strstr(haystack: string, needle: string): (r: Option<nat>)
    ensures r.Some? ==> OccursAt(needle, haystack, r.value)
    ensures r.Some? ==> forall k: nat :: k < r.value ==> !OccursAt(needle, haystack, k)
    ensures r.None? ==> forall k: nat :: !OccursAt(needle, haystack, k)
  {
    FindFrom(haystack, needle, 0)
  }

  /** strstr succeeds exactly on substrings. */
  lemma StrstrFindsSubstrings(haystack: string, needle: string)
    ensures Strstr(haystack, needle).Some? <==> IsSubstring(needle, haystack)
  {
    var r := Strstr(haystack, needle);
    if r.Some? {
      assert OccursAt(needle, haystack, r.value);
    }
  }

  /** The empty string occurs in every string, at offset 0. */
  lemma EmptyStringOccurs(haystack: string)
    ensures IsSubstring([], haystack)
  {
    assert OccursAt([], haystack, 0);
  }

  /**
   * array_string_contains_any: some stored string occurs in haystack. An
   * empty stored string therefore always matches (EmptyStringOccurs).
   */
  method StringContainsAny(items: DynArray<string>, haystack: string) returns (found: bool)
    requires items.Valid() && AllStrings(items.Contents())
    ensures found <==> exists i :: 0 <= i < |items.Contents()| && IsSubstring(items.Contents()[i].value, haystack)
  {
    var index := 0;
    while index < items.count
      invariant index <= items.count
      invariant forall i :: 0 <= i < index ==> !IsSubstring(items.data[i].value, haystack)
    {
      var needle := items.data[index].value;
      StrstrFindsSubstrings(haystack, needle);
      if Strstr(haystack, needle).Some? {
        assert items.Contents()[index] == items.data[index];
        return true;
      }
      index := index + 1;
    }
    return false;
  }
}
