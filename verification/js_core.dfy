/** JavaScript values as the routes and screens see them in request bodies,
    query strings and JSON responses, with the coercions the code relies on. */
module JsCore {

  datatype Option<+T> = None | Some(value: T)

  /** A primitive JavaScript value. Numbers are integers here: the code only
      compares ids, durations and scores, and NaN is not modelled. */
  datatype JsVal = Undef | Null | Str(s: string) | Num(n: int) | Bool(b: bool)

  /** JavaScript truthiness: `!v` is false exactly for these values. */
  predicate Truthy(v: JsVal)
  {
    match v
    case Undef => false
    case Null => false
    case Str(s) => s != ""
    case Num(n) => n != 0
    case Bool(b) => b
  }

  /** The weaker test `v !== null && v !== undefined && v !== ''`. */
  predicate NotBlank(v: JsVal)
  {
    !v.Undef? && !v.Null? && v != Str("")
  }

  lemma TruthyIsNotBlank(v: JsVal)
    ensures Truthy(v) ==> NotBlank(v)
    ensures !NotBlank(v) ==> !Truthy(v)
  {
  }

  /** The two tests differ exactly on `0` and `false`. */
  lemma NotBlankButFalsy(v: JsVal)
    ensures NotBlank(v) && !Truthy(v) <==> v == Num(0) || v == Bool(false)
  {
  }

  /** A plain object with string keys; a missing key reads as `undefined`. */
  type JsObject = map<string, JsVal>

  function Get(o: JsObject, key: string): (v: JsVal)
    ensures key !in o ==> v == Undef
    ensures key in o ==> v == o[key]
  {
    if key in o then o[key] else Undef
  }

  /** Number of occurrences of `c` in `s`. */
  function CountChar(s: string, c: char): nat
  {
    if s == [] then 0 else (if s[0] == c then 1 else 0) + CountChar(s[1..], c)
  }

  lemma {:induction false} CountCharAppend(a: string, b: string, c: char)
    ensures CountChar(a + b, c) == CountChar(a, c) + CountChar(b, c)
  {
    if a == [] {
      assert a + b == b;
    } else {
      assert (a + b)[1..] == a[1..] + b;
      CountCharAppend(a[1..], b, c);
    }
  }

  lemma {:induction false} NoCharNoCount(s: string, c: char)
    requires c !in s
    ensures CountChar(s, c) == 0
  {
    if s != [] {
      NoCharNoCount(s[1..], c);
    }
  }

  /** A string whose only `c` is its last character. */
  lemma OnlyLastIs(s: string, c: char)
    requires |s| > 0 && s[|s| - 1] == c && c !in s[..|s| - 1]
    ensures CountChar(s, c) == 1
  {
    var k := |s| - 1;
    NoCharNoCount(s[..k], c);
    CountCharAppend(s[..k], [s[k]], c);
    assert s[..k] + [s[k]] == s;
  }

  /** ASCII lower-casing of one character. */
  function LowerChar(c: char): char
  {
    if 'A' <= c <= 'Z' then (c as int + 32) as char else c
  }

  /** `s.toLowerCase()` restricted to ASCII letters. */
  function ToLower(s: string): (r: string)
    ensures |r| == |s|
    ensures forall i :: 0 <= i < |s| ==> r[i] == LowerChar(s[i])
  {
    if s == [] then [] else [LowerChar(s[0])] + ToLower(s[1..])
  }

  /** Decimal digits of a natural number: the property key JavaScript uses
      when a number indexes an object (`records[5]` is `records["5"]`). */
  function NatToString(n: nat): (s: string)
    ensures |s| > 0
    ensures forall i :: 0 <= i < |s| ==> '0' <= s[i] <= '9'
    decreases n
  {
    if n < 10 then [Digit(n)] else NatToString(n / 10) + [Digit(n % 10)]
  }

  function Digit(d: nat): (c: char)
    requires d < 10
    ensures '0' <= c <= '9'
  {
    ('0' as int + d) as char
  }

  /** `Number(s)` for a non-empty string of decimal digits. */
  function ParseDigits(s: string): nat
    requires forall i :: 0 <= i < |s| ==> '0' <= s[i] <= '9'
  {
    if s == [] then 0 else ParseDigits(s[..|s| - 1]) * 10 + (s[|s| - 1] as int - '0' as int)
  }

  /** `Number(String(n)) === n`: a key written for a number reads back as it. */
  lemma {:induction false} ParseNatToString(n: nat)
    ensures ParseDigits(NatToString(n)) == n
    decreases n
  {
    var s := NatToString(n);
    if n >= 10 {
      assert s[..|s| - 1] == NatToString(n / 10);
      ParseNatToString(n / 10);
    }
  }

  /** Different numbers have different keys. */
  lemma NatToStringInjective(m: nat, n: nat)
    requires NatToString(m) == NatToString(n)
    ensures m == n
  {
    ParseNatToString(m);
    ParseNatToString(n);
  }

  /** `a.includes(x)` on primitives (strict equality; NaN is not modelled). */
  predicate Includes(a: seq<JsVal>, x: JsVal)
  {
    exists i :: 0 <= i < |a| && a[i] == x
  }

  /** `s.filter(p)`, written on the last element so that a loop over a prefix
      can keep it as its invariant. */
  function Filter<T>(p: T -> bool, s: seq<T>): (r: seq<T>)
    ensures |r| <= |s|
    ensures forall x :: x in r ==> x in s && p(x)
    ensures forall x :: x in s && p(x) ==> x in r
  {
    if s == [] then []
    else if p(s[|s| - 1]) then Filter(p, s[..|s| - 1]) + [s[|s| - 1]]
    else Filter(p, s[..|s| - 1])
  }

  /** `idx` picks the elements of `xs` out of `ys`, in increasing positions. */
  predicate Embedding<T(==)>(idx: seq<nat>, xs: seq<T>, ys: seq<T>)
  {
    && |idx| == |xs|
    && (forall k :: 0 <= k < |idx| ==> idx[k] < |ys| && xs[k] == ys[idx[k]])
    && (forall k, l :: 0 <= k < l < |idx| ==> idx[k] < idx[l])
  }

  /** `xs` is `ys` with some elements dropped and the rest in their order. */
  ghost predicate IsSubsequence<T>(xs: seq<T>, ys: seq<T>)
  {
    exists idx :: Embedding(idx, xs, ys)
  }

  /** A filter keeps the surviving elements in their original order. */
  lemma {:induction false} FilterEmbedding<T>(p: T -> bool, s: seq<T>) returns (idx: seq<nat>)
    ensures Embedding(idx, Filter(p, s), s)
  {
    if s == [] {
      idx := [];
    } else {
      var init, last := s[..|s| - 1], s[|s| - 1];
      var idx0 := FilterEmbedding(p, init);
      assert s == init + [last];
      EmbeddingExtend(idx0, Filter(p, init), init, last);
      idx := if p(last) then idx0 + [|init|] else idx0;
    }
  }

  /** An embedding survives a new last element, whether it is kept or not. */
  lemma EmbeddingExtend<T>(idx: seq<nat>, xs: seq<T>, ys: seq<T>, y: T)
    requires Embedding(idx, xs, ys)
    ensures Embedding(idx, xs, ys + [y])
    ensures Embedding(idx + [|ys|], xs + [y], ys + [y])
  {
    var idx', xs', ys' := idx + [|ys|], xs + [y], ys + [y];
    forall k | 0 <= k < |idx|
      ensures idx[k] < |ys'| && xs[k] == ys'[idx[k]]
    {
    }
    forall k | 0 <= k < |idx'|
      ensures idx'[k] < |ys'| && xs'[k] == ys'[idx'[k]]
    {
      if k < |idx| {
        assert idx'[k] == idx[k] && xs'[k] == xs[k];
      }
    }
    forall k, l | 0 <= k < l < |idx'|
      ensures idx'[k] < idx'[l]
    {
      assert idx'[k] == idx[k];
      if l < |idx| {
        assert idx'[l] == idx[l];
      }
    }
  }

  lemma FilterIsSubsequence<T>(p: T -> bool, s: seq<T>)
    ensures IsSubsequence(Filter(p, s), s)
  {
    var idx := FilterEmbedding(p, s);
  }

  /** A filter keeps every copy of an element it accepts and none of one it
      rejects. */
  lemma {:induction false} FilterMultiset<T>(p: T -> bool, s: seq<T>)
    ensures forall x :: multiset(Filter(p, s))[x] == if p(x) then multiset(s)[x] else 0
  {
    if s != [] {
      var init, last := s[..|s| - 1], s[|s| - 1];
      FilterMultiset(p, init);
      assert s == init + [last];
      assert multiset(s) == multiset(init) + multiset{last};
    }
  }

  /** A filter whose predicate holds everywhere changes nothing. */
  lemma {:induction false} FilterAll<T>(p: T -> bool, s: seq<T>)
    requires forall i :: 0 <= i < |s| ==> p(s[i])
    ensures Filter(p, s) == s
  {
    if s != [] {
      var init := s[..|s| - 1];
      assert forall i :: 0 <= i < |init| ==> init[i] == s[i];
      FilterAll(p, init);
      assert init + [s[|s| - 1]] == s;
    }
  }

  /** A filter whose predicate holds nowhere yields nothing. */
  lemma {:induction false} FilterNone<T>(p: T -> bool, s: seq<T>)
    requires forall i :: 0 <= i < |s| ==> !p(s[i])
    ensures Filter(p, s) == []
  {
    if s != [] {
      FilterNone(p, s[..|s| - 1]);
    }
  }

  lemma {:induction false} FilterAppend<T>(p: T -> bool, a: seq<T>, b: seq<T>)
    ensures Filter(p, a + b) == Filter(p, a) + Filter(p, b)
    decreases |b|
  {
    if b == [] {
      assert a + b == a;
    } else {
      var b0 := b[..|b| - 1];
      assert (a + b)[..|a + b| - 1] == a + b0;
      FilterAppend(p, a, b0);
    }
  }
}
