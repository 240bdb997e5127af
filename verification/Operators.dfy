/**
 Operator names: the memoised operatorReplace against the uncached unOptimizedOperatorReplace.

 Java strings that may be null are options. The name table is built from the elements of the
 configuration file and stays fixed between the calls compared.
 */
module Operators {
  import opened Bytes

  type Text = Option<string>
  type Names = map<Text, Text>

  // ----- the table -----

  /** What the XML parser meets next. */
  datatype Element = SpnOverride(numeric: Text, spn: Text) | OtherElement | Fault

  /** The overrides before the first element of another kind or fault. */
  function Overrides(elements: seq<Element>): seq<Element> {
    if elements == [] || !elements[0].SpnOverride? then [] else [elements[0]] + Overrides(elements[1..])
  }

  /** The position of the last override for a code, or -1. */
  function LastFor(overrides: seq<Element>, code: Text): (k: int)
    ensures -1 <= k < |overrides|
    ensures k >= 0 ==> overrides[k].SpnOverride? && overrides[k].numeric == code
    ensures forall j :: k < j < |overrides| ==> overrides[j].SpnOverride? ==> overrides[j].numeric != code
  {
    if overrides == [] then -1
    else
      var n := |overrides| - 1;
      if overrides[n].SpnOverride? && overrides[n].numeric == code then n else LastFor(overrides[..n], code)
  }

  /** initList: the last override of a code counts; whatever ends the loop, the map so far is returned. */
  method InitList(elements: seq<Element>) returns (init: Names)
    ensures var used := Overrides(elements);
            forall code: Text ::
              && (code in init <==> LastFor(used, code) >= 0)
              && (code in init ==> init[code] == used[LastFor(used, code)].spn)
  {
    hide LastFor, Overrides;
    init := map[];
    var i := 0;
    ghost var used: seq<Element> := [];
    assert elements[0..] == elements;
    while i < |elements|
      invariant 0 <= i <= |elements|
      invariant Overrides(elements) == used + Overrides(elements[i..])
      invariant forall code: Text ::
                  && (code in init <==> LastFor(used, code) >= 0)
                  && (code in init ==> init[code] == used[LastFor(used, code)].spn)
    {
      match elements[i]
      case SpnOverride(numeric, spn) =>
        init := init[numeric := spn];
        OneMoreOverride(used, elements[i]);
        OverridesFrom(elements, i);
        used := used + [elements[i]];
        i := i + 1;
      case OtherElement =>
        OverridesFrom(elements, i);
        break;
      case Fault =>
        OverridesFrom(elements, i);
        break;
    }
    if i == |elements| { OverridesEnd(elements); }
    assert used + [] == used;
  }

  lemma OneMoreOverride(used: seq<Element>, e: Element)
    requires e.SpnOverride?
    ensures forall code: Text :: LastFor(used + [e], code) == if e.numeric == code then |used| else LastFor(used, code)
  {
    assert (used + [e])[..|used|] == used;
  }

  lemma OverridesFrom(elements: seq<Element>, i: nat)
    requires i < |elements|
    ensures Overrides(elements[i..])
         == if elements[i].SpnOverride? then [elements[i]] + Overrides(elements[i + 1..]) else []
  {
    assert elements[i..][1..] == elements[i + 1..];
  }

  lemma OverridesEnd(elements: seq<Element>)
    ensures Overrides(elements[|elements|..]) == []
  {
  }

  // ----- what a code is called -----

  predicate AllDigits(s: string) {
    forall i :: 0 <= i < |s| ==> '0' <= s[i] <= '9'
  }

  /** Integer.parseInt accepts it: for at most six characters that means a sign and digits. */
  predicate IsNumber(s: string) {
    var digits := if s != "" && s[0] in {'-', '+'} then s[1..] else s;
    digits != "" && AllDigits(digits)
  }

  predicate IsCode(response: Text) {
    response.Some? && |response.value| in {5, 6}
  }

  /** The operator's name for a numeric code of five or six characters in the table; anything else stays. */
  function NameOf(table: Names, response: Text): Text {
    if IsCode(response) && IsNumber(response.value) && response in table then table[response] else response
  }

  /** unOptimizedOperatorReplace: the table is loaded at the first use of the object. */
  class Uncached {
    var unOptOperators: Option<Names>

    constructor ()
      ensures unOptOperators == None
    {
      unOptOperators := None;
    }

    method Replace(response: Text, table: Names) returns (name: Text)
      requires unOptOperators in {None, Some(table)}
      modifies this
      ensures name == NameOf(table, response) && unOptOperators in {None, Some(table)}
    {
      if response.None? || (5 != |response.value| && |response.value| != 6) {
        return response;
      }
      if !IsNumber(response.value) {
        return response;
      }
      if unOptOperators.None? {
        unOptOperators := Some(table);
      }
      name := if response in unOptOperators.value then unOptOperators.value[response] else response;
    }
  }

  // ----- the memo -----

  /** The static fields stored and storedOperators; the latter is null too after a null name. */
  datatype Memo = Memo(stored: Text, operators: Text)

  const EMPTY := Memo(None, None)

  predicate Hit(m: Memo, response: Text) {
    IsCode(response) && m.operators.Some? && m.stored == response
  }

  function Replace(m: Memo, table: Names, response: Text): (r: (Memo, Text)) {
    if !IsCode(response) then (m, response)
    else if Hit(m, response) then (m, m.operators)
    else
      var name := if IsNumber(response.value) && response in table then table[response] else response;
      (Memo(response, name), name)
  }

  /** operatorReplace. */
  class Cached {
    var stored: Text
    var storedOperators: Text

    constructor ()
      ensures stored == None && storedOperators == None
    {
      stored, storedOperators := None, None;
    }

    method OperatorReplace(response: Text, table: Names) returns (name: Text)
      modifies this
      ensures (Memo(stored, storedOperators), name)
           == Replace(old(Memo(stored, storedOperators)), table, response)
    {
      if response.None? || (5 != |response.value| && |response.value| != 6) {
        return response;
      }
      if storedOperators.Some? && stored.Some? && stored == response {
        return storedOperators;
      }
      stored := response;
      if !IsNumber(response.value) {
        storedOperators := response;
        return storedOperators;
      }
      storedOperators := if response in table then table[response] else response;
      name := storedOperators;
    }
  }

  /** What is remembered is the name of the code it is remembered for. */
  predicate Remembers(m: Memo, table: Names) {
    Hit(m, m.stored) ==> m.operators == NameOf(table, m.stored)
  }

  /** The memo after a sequence of calls with one table. */
  function After(m: Memo, table: Names, responses: seq<Text>): Memo {
    if responses == [] then m
    else Replace(After(m, table, responses[..|responses| - 1]), table, responses[|responses| - 1]).0
  }

  /** Over every sequence of calls with one table the memo answers as the uncached lookup does. */
  lemma {:induction false} MemoIsTransparent(table: Names, responses: seq<Text>, response: Text)
    ensures Remembers(After(EMPTY, table, responses), table)
    ensures Replace(After(EMPTY, table, responses), table, response).1 == NameOf(table, response)
  {
    if responses != [] {
      MemoIsTransparent(table, responses[..|responses| - 1], responses[|responses| - 1]);
    }
  }

  /** With another table it answers right for every response exactly when the remembered name is still right. */
  lemma StaleIff(m: Memo, table: Names)
    ensures (forall response: Text :: Replace(m, table, response).1 == NameOf(table, response)) <==> Remembers(m, table)
  {
  }

  // ----- what is replaced -----

  /** Five or six characters, all of them digits but perhaps a sign in front. */
  predicate Numeric(s: string) {
    (|s| == 5 || |s| == 6) && (AllDigits(s) || ((s[0] == '-' || s[0] == '+') && AllDigits(s[1..])))
  }

  /**
   Exactly the numeric codes of five or six characters that the table knows are replaced, by the
   table's name; everything else, null included, is handed back.
   */
  lemma ReplacedIff(table: Names, response: Text)
    ensures NameOf(table, response)
         == if response.Some? && Numeric(response.value) && response in table then table[response] else response
  {
    if response.Some? && |response.value| > 0 {
      var s := response.value;
      if s[0] == '-' || s[0] == '+' {
        assert IsNumber(s) <==> s[1..] != "" && AllDigits(s[1..]);
        assert !AllDigits(s);
      } else {
        assert IsNumber(s) <==> AllDigits(s);
      }
    }
  }
}
