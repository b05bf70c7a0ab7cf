/**
 * The search-term escaper `_escapeSpecialCharacters`: every code unit outside
 * the class `[A-Za-z0-9\sÖÜÄöüäß]` is preceded by a backslash.
 */
module Escaping {
  import opened Wrappers

  /** A JavaScript string is a sequence of UTF-16 code units; a regular
      expression without the `u` flag matches one code unit at a time. */
  newtype CodeUnit = x: int | 0 <= x < 0x1_0000

  const Backslash: CodeUnit := 0x5C

  /** The code units matched by `\s` in an ECMAScript regular expression:
      WhiteSpace (TAB, VT, FF, SP, NBSP, ZWNBSP and the Zs category) and
      LineTerminator (LF, CR, LS, PS). Defined explicitly, not left opaque. */
  predicate IsJsWhitespace(c: CodeUnit)
    ensures c == 0x09 || c == 0x0A || c == 0x0D || c == 0x20 || c == 0xA0 ==> IsJsWhitespace(c)
  {
    || (0x09 <= c <= 0x0D)
    || c == 0x20 || c == 0xA0 || c == 0x1680
    || (0x2000 <= c <= 0x200A)
    || c == 0x2028 || c == 0x2029 || c == 0x202F || c == 0x205F
    || c == 0x3000 || c == 0xFEFF
  }

  /** The seven accented letters the class admits: Ö Ü Ä ö ü ä ß. */
  predicate IsGermanLetter(c: CodeUnit) {
    c == 0xD6 || c == 0xDC || c == 0xC4 || c == 0xF6 || c == 0xFC || c == 0xE4 || c == 0xDF
  }

  /** Membership in `[A-Za-z0-9\sÖÜÄöüäß]` (case-sensitive: no `i` flag). */
  predicate IsAllowed(c: CodeUnit)
    ensures c == Backslash ==> !IsAllowed(c)
  {
    || (0x41 <= c <= 0x5A)   // A-Z
    || (0x61 <= c <= 0x7A)   // a-z
    || (0x30 <= c <= 0x39)   // 0-9
    || IsJsWhitespace(c)
    || IsGermanLetter(c)
  }

  predicate AllAllowed(s: seq<CodeUnit>) {
    forall i :: 0 <= i < |s| ==> IsAllowed(s[i])
  }

  /** `special_char_regex.exec(s)`: the index of the first disallowed code unit. */
  function FirstSpecial(s: seq<CodeUnit>): (r: Option<nat>)
    ensures r.Some? ==> r.value < |s| && !IsAllowed(s[r.value]) && AllAllowed(s[..r.value])
    ensures r.None? <==> AllAllowed(s)
  {
    if s == [] then None
    else if !IsAllowed(s[0]) then Some(0)
    else
      match FirstSpecial(s[1..])
      case None => None
      case Some(i) =>
        assert s[..i + 1] == [s[0]] + s[1..][..i];
        Some(i + 1)
  }

  /** The specification of the escaper: one code unit at a time. */
  function Escape(s: seq<CodeUnit>): (r: seq<CodeUnit>)
    ensures r == [] <==> s == []
  {
    if s == [] then []
    else (if IsAllowed(s[0]) then [s[0]] else [Backslash, s[0]]) + Escape(s[1..])
  }

  /** Number of code units outside the allowed class. */
  function CountSpecial(s: seq<CodeUnit>): nat {
    if s == [] then 0 else (if IsAllowed(s[0]) then 0 else 1) + CountSpecial(s[1..])
  }

  /** The inverse of `Escape`: drop a backslash and keep what follows it. */
  function Unescape(t: seq<CodeUnit>): seq<CodeUnit> {
    if t == [] then []
    else if t[0] == Backslash && |t| >= 2 then [t[1]] + Unescape(t[2..])
    else [t[0]] + Unescape(t[1..])
  }

  /** `t` is a sequence of allowed code units and backslash-escaped disallowed
      ones, and nothing else: the form the escaper produces. */
  predicate IsEscaped(t: seq<CodeUnit>) {
    if t == [] then true
    else if IsAllowed(t[0]) then IsEscaped(t[1..])
    else |t| >= 2 && t[0] == Backslash && !IsAllowed(t[1]) && IsEscaped(t[2..])
  }

  lemma {:induction false} EscapeAppend(a: seq<CodeUnit>, b: seq<CodeUnit>)
    ensures Escape(a + b) == Escape(a) + Escape(b)
  {
    if a == [] {
      assert a + b == b;
    } else {
      assert (a + b)[1..] == a[1..] + b;
      EscapeAppend(a[1..], b);
    }
  }

  /** A string made only of allowed code units, the empty one included, comes back unchanged. */
  lemma {:induction false} EscapeAllowed(s: seq<CodeUnit>)
    requires AllAllowed(s)
    ensures Escape(s) == s
  {
    if s != [] {
      assert AllAllowed(s[1..]);
      EscapeAllowed(s[1..]);
    }
  }

  /** Conversely, a string that the escaper leaves unchanged has no disallowed code unit. */
  lemma {:induction false} EscapeUnchangedOnlyIfAllowed(s: seq<CodeUnit>)
    requires Escape(s) == s
    ensures AllAllowed(s)
  {
    EscapeLength(s);
    CountSpecialZero(s);
  }

  lemma {:induction false} CountSpecialZero(s: seq<CodeUnit>)
    requires CountSpecial(s) == 0
    ensures AllAllowed(s)
  {
    if s != [] {
      CountSpecialZero(s[1..]);
      assert forall i :: 1 <= i < |s| ==> s[i] == s[1..][i - 1];
    }
  }

  /** The output is the input plus one backslash per disallowed code unit. */
  lemma {:induction false} EscapeLength(s: seq<CodeUnit>)
    ensures |Escape(s)| == |s| + CountSpecial(s)
  {
    if s != [] {
      EscapeLength(s[1..]);
    }
  }

  /** Removing the inserted backslashes gives the input back: a backslash in
      the input is itself escaped, so it is never taken for a marker. */
  lemma {:induction false} UnescapeEscape(s: seq<CodeUnit>)
    ensures Unescape(Escape(s)) == s
  {
    if s != [] {
      var e := Escape(s);
      UnescapeEscape(s[1..]);
      if IsAllowed(s[0]) {
        assert e == [s[0]] + Escape(s[1..]);
        assert s[0] != Backslash;
        assert e[1..] == Escape(s[1..]);
      } else {
        assert e == [Backslash, s[0]] + Escape(s[1..]);
        assert e[2..] == Escape(s[1..]);
      }
    }
  }

  /** Every disallowed code unit of the output is an inserted marker or stands
      right after one. */
  lemma {:induction false} EscapeIsEscaped(s: seq<CodeUnit>)
    ensures IsEscaped(Escape(s))
  {
    if s != [] {
      var e := Escape(s);
      EscapeIsEscaped(s[1..]);
      if IsAllowed(s[0]) {
        assert e[1..] == Escape(s[1..]);
      } else {
        assert e[2..] == Escape(s[1..]);
      }
    }
  }

  /** Every escaped-form string is the escape of exactly one input. */
  lemma {:induction false} EscapeUnescape(t: seq<CodeUnit>)
    requires IsEscaped(t)
    ensures Escape(Unescape(t)) == t
  {
    if t != [] {
      if IsAllowed(t[0]) {
        assert t[0] != Backslash;
        EscapeUnescape(t[1..]);
        var u := Unescape(t);
        assert u == [t[0]] + Unescape(t[1..]);
        assert u[1..] == Unescape(t[1..]);
      } else {
        EscapeUnescape(t[2..]);
        var u := Unescape(t);
        assert u == [t[1]] + Unescape(t[2..]);
        assert u[1..] == Unescape(t[2..]);
      }
    }
  }

  /** One pass of the loop: the allowed prefix, a marker, the special unit, then the rest. */
  lemma EscapeAtFirstSpecial(t: seq<CodeUnit>, i: nat)
    requires FirstSpecial(t) == Some(i)
    ensures Escape(t) == t[..i] + [Backslash, t[i]] + Escape(t[i + 1..])
  {
    assert t == t[..i] + ([t[i]] + t[i + 1..]);
    EscapeAppend(t[..i], [t[i]] + t[i + 1..]);
    EscapeAllowed(t[..i]);
    assert ([t[i]] + t[i + 1..])[1..] == t[i + 1..];
  }

  /** The loop's invariant survives one pass that appends `pass` to `head`. */
  lemma EscapeStep(head: seq<CodeUnit>, tail: seq<CodeUnit>, i: nat, pass: seq<CodeUnit>)
    requires FirstSpecial(tail) == Some(i)
    requires i < |tail| && pass == tail[..i] + [Backslash, tail[i]]
    ensures (head + pass) + Escape(tail[i + 1..]) == head + Escape(tail)
  {
    EscapeAtFirstSpecial(tail, i);
    Associative(head, pass, Escape(tail[i + 1..]));
  }

  lemma Associative<U>(a: seq<U>, b: seq<U>, c: seq<U>)
    ensures (a + b) + c == a + (b + c)
  {
  }

  /** `_escapeSpecialCharacters`: the `head`/`tail` loop, each pass consuming
      the tail up to and including its first disallowed code unit. */
  method EscapeSpecialCharacters(str: seq<CodeUnit>) returns (escaped: seq<CodeUnit>)
    ensures escaped == Escape(str)
  {
    var head: seq<CodeUnit> := [];
    var tail := str;
    var found := FirstSpecial(tail);
    while found.Some?
      invariant head + Escape(tail) == Escape(str)
      invariant found == FirstSpecial(tail)
      decreases |tail|
    {
      var i := found.value;
      var pass := tail[..i] + [Backslash, tail[i]];
      EscapeStep(head, tail, i, pass);
      head := head + pass;
      tail := tail[i + 1..];
      found := FirstSpecial(tail);
    }
    EscapeAllowed(tail);
    escaped := head + tail;
  }

  /** Letters, digits, spaces and the German umlauts pass through unchanged:
      the code units of "Todw vL TtÄu Y 9äM RL TI Ö üÜü". */
  lemma KeepsPlainText()
    ensures Escape([0x54, 0x6f, 0x64, 0x77, 0x20, 0x76, 0x4c, 0x20, 0x54, 0x74, 0xc4, 0x75, 0x20, 0x59, 0x20, 0x39, 0xe4, 0x4d, 0x20, 0x52, 0x4c, 0x20, 0x54, 0x49, 0x20, 0xd6, 0x20, 0xfc, 0xdc, 0xfc]) == [0x54, 0x6f, 0x64, 0x77, 0x20, 0x76, 0x4c, 0x20, 0x54, 0x74, 0xc4, 0x75, 0x20, 0x59, 0x20, 0x39, 0xe4, 0x4d, 0x20, 0x52, 0x4c, 0x20, 0x54, 0x49, 0x20, 0xd6, 0x20, 0xfc, 0xdc, 0xfc]
  {
    EscapeAllowed([0x54, 0x6f, 0x64, 0x77, 0x20, 0x76, 0x4c, 0x20, 0x54, 0x74, 0xc4, 0x75, 0x20, 0x59, 0x20, 0x39, 0xe4, 0x4d, 0x20, 0x52, 0x4c, 0x20, 0x54, 0x49, 0x20, 0xd6, 0x20, 0xfc, 0xdc, 0xfc]);
  }

  /** A backslash is outside the class, so it is itself escaped: the code
      units of `Z\ab`, the end of the test string, become those of `Z\\ab`. */
  lemma EscapesBackslash()
    ensures Escape([0x5A, 0x5C, 0x61, 0x62]) == [0x5A, 0x5C, 0x5C, 0x61, 0x62]
  {
    var s: seq<CodeUnit> := [0x5A, 0x5C, 0x61, 0x62];
    assert s[1..] == [0x5C, 0x61, 0x62];
    assert s[1..][1..] == [0x61, 0x62];
    EscapeAllowed([0x61, 0x62]);
  }
}
