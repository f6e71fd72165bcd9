/** `String#camelize` for field names written in lower-case ASCII letters,
    digits and underscores: the first character of each `_`-separated
    segment is upper-cased and the underscores are dropped. */
module Inflector {

  /** ASCII upper-casing; anything outside `a`..`z` is left alone. */
  function Upcase(c: char): char {
    if 'a' <= c <= 'z' then (c as int - 'a' as int + 'A' as int) as char else c
  }

  /** A lower-case letter or a digit: the characters of a one-word field name. */
  predicate WordChar(c: char) {
    'a' <= c <= 'z' || '0' <= c <= '9'
  }

  /** Camelize `s`; `start` says whether `s` begins a segment. */
  function CamelizeFrom(s: string, start: bool): (r: string)
    ensures '_' !in r
    ensures |r| <= |s|
  {
    if |s| == 0 then []
    else if s[0] == '_' then CamelizeFrom(s[1..], true)
    else [if start then Upcase(s[0]) else s[0]] + CamelizeFrom(s[1..], false)
  }

  function Camelize(k: string): (r: string)
    ensures '_' !in r
    ensures |r| <= |k|
  {
    CamelizeFrom(k, true)
  }

  /** Inside a segment camelize copies the characters unchanged. */
  lemma {:induction false} CamelizeFromWord(s: string)
    requires '_' !in s
    ensures CamelizeFrom(s, false) == s
  {
    if |s| > 0 {
      assert s[0] in s;
      assert forall c :: c in s[1..] ==> c in s;
      CamelizeFromWord(s[1..]);
    }
  }

  /** A single word is capitalised: `"port"` becomes `"Port"`. */
  lemma CamelizeWord(w: string)
    requires |w| > 0 && '_' !in w
    ensures Camelize(w) == [Upcase(w[0])] + w[1..]
  {
    assert w[0] in w;
    assert forall c :: c in w[1..] ==> c in w;
    CamelizeFromWord(w[1..]);
  }

  /** An underscore ends one segment and starts the next. */
  lemma {:induction false} CamelizeFromSplit(a: string, b: string, start: bool)
    ensures CamelizeFrom(a + "_" + b, start) == CamelizeFrom(a, start) + CamelizeFrom(b, true)
  {
    var s := a + "_" + b;
    if |a| == 0 {
      assert s == "_" + b;
      assert s[1..] == b;
    } else {
      assert s[0] == a[0];
      assert s[1..] == a[1..] + "_" + b;
      if a[0] == '_' {
        CamelizeFromSplit(a[1..], b, true);
      } else {
        CamelizeFromSplit(a[1..], b, false);
      }
    }
  }

  /** `camelize("service_port")` is `camelize("service") + camelize("port")`. */
  lemma CamelizeJoin(a: string, b: string)
    ensures Camelize(a + "_" + b) == Camelize(a) + Camelize(b)
  {
    CamelizeFromSplit(a, b, true);
  }

  /** On one-word names camelize is injective. */
  lemma CamelizeWordInjective(a: string, b: string)
    requires |a| > 0 && |b| > 0
    requires forall i :: 0 <= i < |a| ==> WordChar(a[i])
    requires forall i :: 0 <= i < |b| ==> WordChar(b[i])
    requires Camelize(a) == Camelize(b)
    ensures a == b
  {
    assert '_' !in a;
    assert '_' !in b;
    CamelizeWord(a);
    CamelizeWord(b);
    var ca, cb := Camelize(a), Camelize(b);
    assert ca[0] == Upcase(a[0]) && cb[0] == Upcase(b[0]);
    assert Upcase(a[0]) == Upcase(b[0]);
    assert ca[1..] == a[1..] && cb[1..] == b[1..];
    assert a[1..] == b[1..];
    assert a == [a[0]] + a[1..];
    assert b == [b[0]] + b[1..];
  }
}
