/** NMEA fields: the sentence body, its comma-separated fields, and the decimal reader. */
module Tokenizer {
  import opened Bytes

  const COMMA: byte := 44
  const DOLLAR: byte := 36
  const STAR: byte := 42
  const MINUS: byte := 45
  const CR: byte := 13
  const LF: byte := 10
  const MAX_NMEA_TOKENS := 24

  // ----- what the fields of a sentence are -----

  /** Everything before the first comma. */
  function Head(s: seq<byte>): (h: seq<byte>)
    ensures h <= s && COMMA !in h
    ensures |h| < |s| ==> s[|h|] == COMMA
  {
    if s == [] || s[0] == COMMA then [] else [s[0]] + Head(s[1..])
  }

  /** The comma-separated fields; there is always at least one. */
  function Fields(s: seq<byte>): (f: seq<seq<byte>>)
    ensures |f| > 0
  {
    var h := Head(s);
    if |h| == |s| then [h] else [h] + Fields(s[|h| + 1..])
  }

  function Join(f: seq<seq<byte>>): seq<byte>
    requires |f| > 0
  {
    if |f| == 1 then f[0] else f[0] + [COMMA] + Join(f[1..])
  }

  /** Fields loses nothing: joining them with commas restores the text, and no field holds a comma. */
  lemma {:induction false} FieldsJoin(s: seq<byte>)
    ensures Join(Fields(s)) == s
    ensures forall i :: 0 <= i < |Fields(s)| ==> COMMA !in Fields(s)[i]
  {
    var h := Head(s);
    if |h| < |s| {
      var rest := s[|h| + 1..];
      FieldsJoin(rest);
      assert s == h + [COMMA] + rest;
      assert Fields(s) == [h] + Fields(rest);
      assert Fields(s)[1..] == Fields(rest);
    }
  }

  lemma {:induction false} HeadOf(f: seq<byte>, rest: seq<byte>)
    requires COMMA !in f
    ensures Head(f) == f
    ensures Head(f + [COMMA] + rest) == f
  {
    if f != [] {
      HeadOf(f[1..], rest);
      assert (f + [COMMA] + rest)[1..] == f[1..] + [COMMA] + rest;
    }
  }

  lemma FieldsCons(f: seq<byte>, rest: seq<byte>)
    requires COMMA !in f
    ensures Fields(f) == [f]
    ensures Fields(f + [COMMA] + rest) == [f] + Fields(rest)
  {
    HeadOf(f, rest);
    assert (f + [COMMA] + rest)[|f| + 1..] == rest;
  }

  /** And it is the only such splitting. */
  lemma {:induction false} JoinFields(f: seq<seq<byte>>)
    requires |f| > 0
    requires forall i :: 0 <= i < |f| ==> COMMA !in f[i]
    ensures Fields(Join(f)) == f
  {
    hide Fields, Head;
    if |f| == 1 {
      FieldsCons(f[0], []);
      assert f == [f[0]];
    } else {
      FieldsCons(f[0], Join(f[1..]));
      JoinFields(f[1..]);
      assert f == [f[0]] + f[1..];
    }
  }

  /** Where the body of a sentence lies: past an optional '$', before the line ending and the checksum. */
  function BodyRange(s: seq<byte>): (r: (nat, nat))
    ensures r.0 <= r.1 <= |s|
  {
    var p := if |s| > 0 && s[0] == DOLLAR then 1 else 0;
    var e0 := |s|;
    var e1 := if e0 > p && s[e0 - 1] == LF then e0 - 1 else e0;
    var e2 := if e1 < e0 && e1 > p && s[e1 - 1] == CR then e1 - 1 else e1;
    var e3 := if e2 >= p + 3 && s[e2 - 3] == STAR then e2 - 3 else e2;
    (p, e3)
  }

  function Body(s: seq<byte>): seq<byte> {
    s[BodyRange(s).0..BodyRange(s).1]
  }

  /** The i-th field of a sentence, empty when there is none or the tokenizer has no room for it. */
  function Field(s: seq<byte>, i: int): seq<byte> {
    if 0 <= i < |Fields(Body(s))| && i < MAX_NMEA_TOKENS then Fields(Body(s))[i] else []
  }

  // ----- the tokenizer -----

  datatype Token = Token(p: nat, end: nat)

  /** The token lies inside `s` and delimits `text`. */
  ghost predicate Delimits(t: Token, s: seq<byte>, text: seq<byte>) {
    t.p <= t.end <= |s| && s[t.p..t.end] == text
  }

  /** Each token delimits the field of its number. */
  ghost predicate DelimitFirst(ts: seq<Token>, s: seq<byte>, all: seq<seq<byte>>) {
    |ts| <= |all| && forall i :: 0 <= i < |ts| ==> Delimits(ts[i], s, all[i])
  }

  /** memchr for a comma in s[p..end]. */
  method FindComma(s: seq<byte>, p: nat, end: nat) returns (q: nat)
    requires p <= end <= |s|
    ensures p <= q <= end
    ensures s[p..q] == Head(s[p..end])
  {
    q := p;
    while q < end && s[q] != COMMA
      invariant p <= q <= end
      invariant COMMA !in s[p..q]
    {
      q := q + 1;
    }
    assert s[p..end][..q - p] == s[p..q];
    HeadIs(s[p..end], q - p);
  }

  lemma {:induction false} HeadIs(s: seq<byte>, k: nat)
    requires k <= |s| && COMMA !in s[..k] && (k < |s| ==> s[k] == COMMA)
    ensures Head(s) == s[..k]
  {
  }

  class NmeaTokenizer {
    var count: nat
    const tokens: array<Token>

    ghost predicate Valid()
      reads this
    {
      count <= tokens.Length == MAX_NMEA_TOKENS
    }

    /** The tokenizer holds sentence `s`: every token lies inside it and is the field of that number. */
    ghost predicate Holds(s: seq<byte>)
      reads this, tokens
    {
      && Valid()
      && DelimitFirst(tokens[..count], s, Fields(Body(s)))
      && (forall i :: count <= i ==> Field(s, i) == [])
    }

    constructor ()
      ensures Valid() && fresh(tokens)
    {
      count := 0;
      tokens := new Token[MAX_NMEA_TOKENS];
    }

    method Init(s: seq<byte>)
      requires Valid()
      modifies this`count, tokens
      ensures Holds(s)
    {
      var p, end := 0, |s|;
      if p < end && s[p] == DOLLAR {
        p := p + 1;
      }
      if end > p && s[end - 1] == LF {
        end := end - 1;
        if end > p && s[end - 1] == CR {
          end := end - 1;
        }
      }
      if end >= p + 3 && s[end - 3] == STAR {
        end := end - 3;
      }
      assert s[p..end] == Body(s);
      Scan(s, p, end);
    }

    /** The scanning loop, over the body s[p0..end]. */
    method Scan(s: seq<byte>, p0: nat, end: nat)
      requires Valid() && p0 <= end <= |s|
      modifies this`count, tokens
      ensures Valid()
      ensures var all := Fields(s[p0..end]);
              && DelimitFirst(tokens[..count], s, all)
              && (forall i :: count <= i < |all| && i < MAX_NMEA_TOKENS ==> all[i] == [])
    {
      hide Fields, Head, Delimits;
      var p := p0;
      count := 0;
      ghost var all := Fields(s[p0..end]);
      ghost var done: nat := 0;
      FieldsStep(s[p0..end]);
      while p < end
        invariant Valid() && p0 <= p <= end && done <= |all|
        invariant count == if done < MAX_NMEA_TOKENS then done else MAX_NMEA_TOKENS
        invariant DelimitFirst(tokens[..count], s, all)
        invariant Remaining(s, p, end, all, done)
        decreases end - p
      {
        var q := FindComma(s, p, end);
        NextField(s, p, q, end, all, done);
        if q >= p {
          if count < MAX_NMEA_TOKENS {
            Store(Token(p, q));
          }
        }
        if q < end {
          q := q + 1;
        }
        p := q;
        done := done + 1;
      }
    }

    method Store(t: Token)
      requires Valid() && count < MAX_NMEA_TOKENS
      modifies this`count, tokens
      ensures Valid() && tokens[..count] == old(tokens[..count]) + [t]
    {
      tokens[count] := t;
      count := count + 1;
    }

    /** The i-th token's text: a dummy empty token outside 0..count-1. */
    function Get(s: seq<byte>, i: int): (text: seq<byte>)
      requires Holds(s)
      reads this, tokens
      ensures text == Field(s, i)
    {
      if i < 0 || i >= count then []
      else
        assert Delimits(tokens[..count][i], s, Field(s, i));
        s[tokens[i].p..tokens[i].end]
    }
  }

  /** What is left of the fields `all`, `done` of which are scanned, when the scan stands at `p`. */
  ghost predicate Remaining(s: seq<byte>, p: nat, end: nat, all: seq<seq<byte>>, done: nat)
    requires p <= end <= |s| && done <= |all|
  {
    if p < end then all[done..] == Fields(s[p..end]) else all[done..] == [] || all[done..] == [[]]
  }

  lemma NextField(s: seq<byte>, p: nat, q: nat, end: nat, all: seq<seq<byte>>, done: nat)
    requires p < end <= |s| && p <= q <= end && done <= |all|
    requires Remaining(s, p, end, all, done)
    requires s[p..q] == Head(s[p..end])
    ensures done < |all| && Delimits(Token(p, q), s, all[done])
    ensures Remaining(s, if q < end then q + 1 else q, end, all, done + 1)
  {
    FieldsStep(s[p..end]);
    assert all[done] == all[done..][0];
    assert all[done + 1..] == all[done..][1..];
    if q < end {
      assert s[p..end][q + 1 - p..] == s[q + 1..end];
    }
  }

  lemma FieldsStep(s: seq<byte>)
    ensures var h := Head(s);
            if |h| == |s| then Fields(s) == [h]
            else Fields(s) == [h] + Fields(s[|h| + 1..])
    ensures Fields([]) == [[]]
  {
  }

  // ----- decimal numbers -----

  predicate IsDigit(b: byte) {
    48 <= b <= 57
  }

  predicate AllDigits(s: seq<byte>) {
    forall i :: 0 <= i < |s| ==> IsDigit(s[i])
  }

  function Decimal(s: seq<byte>): (n: nat)
    requires AllDigits(s)
  {
    if s == [] then 0 else 10 * Decimal(s[..|s| - 1]) + (s[|s| - 1] - 48)
  }

  /**
   The number a token denotes: an optional minus sign and digits, kept to 32 bits; -1 for anything
   else, 0 for the empty token.
   */
  function StrToInt(s: seq<byte>): (n: int)
    ensures -TWO_31 <= n < TWO_31
  {
    var negative := s != [] && s[0] == MINUS;
    var digits := if negative then s[1..] else s;
    if !AllDigits(digits) then -1
    else if negative then I32(0 - Decimal(digits)) else I32(Decimal(digits))
  }

  lemma I32Congruent(x: int, y: int, k: int)
    requires x == y + k * TWO_32
    ensures I32(x) == I32(y)
  {
  }

  lemma I32Reduces(x: int) returns (k: int)
    ensures I32(x) == x + k * TWO_32
  {
    var u := x % TWO_32;
    assert x == u + (x / TWO_32) * TWO_32;
    k := if u < TWO_31 then -(x / TWO_32) else -(x / TWO_32) - 1;
  }

  lemma I32Step(x: int, c: int)
    ensures I32(I32(x) * 10 + c) == I32(x * 10 + c)
    ensures I32(-I32(x)) == I32(-x)
  {
    var k := I32Reduces(x);
    hide I32;
    I32Congruent(I32(x) * 10 + c, x * 10 + c, 10 * k);
    I32Congruent(-I32(x), -x, -k);
  }

  lemma DecimalStep(s: seq<byte>, start: nat, p: nat)
    requires start <= p < |s| && AllDigits(s[start..p]) && IsDigit(s[p])
    ensures AllDigits(s[start..p + 1])
    ensures Decimal(s[start..p + 1]) == 10 * Decimal(s[start..p]) + (s[p] - 48)
  {
    assert s[start..p + 1][..p - start] == s[start..p];
    assert s[start..p + 1] == s[start..p] + [s[p]];
  }

  /** str2int: the loop over the characters with its early exit. */
  method Str2Int(s: seq<byte>) returns (r: int)
    ensures r == StrToInt(s)
  {
    var p, len, sign := 0, |s|, 1;
    if |s| > 0 && s[0] == MINUS {
      sign := -1;
      p := 1;
      len := |s| - 1;
    }
    ghost var start := p;
    var result := 0;
    while len > 0
      invariant start <= p <= |s| && len == |s| - p
      invariant AllDigits(s[start..p])
      invariant result == I32(Decimal(s[start..p]))
    {
      if p >= |s| {
        return -1;
      }
      if !(48 <= s[p] <= 57) {
        assert s[start..][p - start] == s[p];
        return -1;
      }
      var c := s[p] - 48;
      DecimalStep(s, start, p);
      I32Step(Decimal(s[start..p]), c);
      result := I32(result * 10 + c);
      len := len - 1;
      p := p + 1;
    }
    assert s[start..p] == s[start..];
    I32Step(Decimal(s[start..]), 0);
    r := I32(sign * result);
  }
}
