/** The string operations the schemas and handlers rely on: JavaScript's
    `trim` (the `trim: true` setters), the length in UTF-16 code units that
    `minlength` and `maxlength` measure, a lower-casing that folds only the
    ASCII letters A-Z (the model's stand-in for `toLowerCase`, which the
    `lowercase: true` setter and the extension check call), the code-point
    order MongoDB sorts strings in, and the lower-case hex encoding of
    `Buffer.toString('hex')`. */
module Text {
  import opened Common

  /** The characters String.prototype.trim removes (WhiteSpace and
      LineTerminator): tab, line feed, vertical tab, form feed, carriage
      return, space, no-break space, ogham space mark, the range
      U+2000-U+200A, the line and paragraph separators, narrow no-break
      space, medium mathematical space, ideographic space and the byte order
      mark. */
  predicate IsSpace(c: char) {
    || c == '\t' || c == '\n' || c == '\U{B}' || c == '\U{C}' || c == '\r' || c == ' '
    || c == '\U{A0}' || c == '\U{1680}' || '\U{2000}' <= c <= '\U{200A}'
    || c == '\U{2028}' || c == '\U{2029}' || c == '\U{202F}' || c == '\U{205F}'
    || c == '\U{3000}' || c == '\U{FEFF}'
  }

  /** A string with no removable space at either end. */
  predicate IsTrimmed(s: string) {
    s == [] || (!IsSpace(s[0]) && !IsSpace(s[|s| - 1]))
  }

  /** `s` without its leading spaces: a suffix of `s` that does not start with space. */
  function TrimStart(s: string): (r: string)
    ensures |r| <= |s|
    ensures r == [] || !IsSpace(r[0])
  {
    if s != [] && IsSpace(s[0]) then TrimStart(s[1..]) else s
  }

  /** What TrimStart keeps is a suffix of `s`. */
  lemma {:induction false} TrimStartIsSuffix(s: string)
    ensures TrimStart(s) == s[|s| - |TrimStart(s)|..]
  {
    if s != [] && IsSpace(s[0]) {
      TrimStartIsSuffix(s[1..]);
      assert s[1..][|s| - 1 - |TrimStart(s)|..] == s[|s| - |TrimStart(s)|..];
    }
  }

  /** Everything TrimStart cuts off is space. */
  lemma {:induction false} TrimStartCutsSpace(s: string)
    ensures forall i :: 0 <= i < |s| - |TrimStart(s)| ==> IsSpace(s[i])
  {
    if s != [] && IsSpace(s[0]) {
      TrimStartCutsSpace(s[1..]);
      assert forall i :: 1 <= i < |s| - |TrimStart(s)| ==> s[i] == s[1..][i - 1];
    }
  }

  /** `s` without its trailing spaces: a prefix of `s` that does not end with space. */
  function TrimEnd(s: string): (r: string)
    ensures |r| <= |s|
    ensures r == [] || !IsSpace(r[|r| - 1])
  {
    if s != [] && IsSpace(s[|s| - 1]) then TrimEnd(s[..|s| - 1]) else s
  }

  /** What TrimEnd keeps is a prefix of `s`. */
  lemma {:induction false} TrimEndIsPrefix(s: string)
    ensures TrimEnd(s) == s[..|TrimEnd(s)|]
  {
    if s != [] && IsSpace(s[|s| - 1]) {
      TrimEndIsPrefix(s[..|s| - 1]);
      assert s[..|s| - 1][..|TrimEnd(s)|] == s[..|TrimEnd(s)|];
    }
  }

  /** Everything TrimEnd cuts off is space. */
  lemma {:induction false} TrimEndCutsSpace(s: string)
    ensures forall i :: |TrimEnd(s)| <= i < |s| ==> IsSpace(s[i])
  {
    if s != [] && IsSpace(s[|s| - 1]) {
      TrimEndCutsSpace(s[..|s| - 1]);
    }
  }

  /** String.prototype.trim (see TrimIsSlice for what it cuts). */
  function Trim(s: string): (r: string)
    ensures |r| <= |s| && IsTrimmed(r)
  {
    var r := TrimEnd(TrimStart(s));
    TrimEndIsPrefix(TrimStart(s));
    assert r != [] ==> r[0] == TrimStart(s)[0];
    r
  }

  /** Trim gives the slice of `s` left when spaces, and only spaces, are cut
      off both ends. */
  lemma TrimIsSlice(s: string)
    ensures exists i, j ::
              && 0 <= i <= j <= |s| && Trim(s) == s[i..j]
              && (forall k :: 0 <= k < i ==> IsSpace(s[k]))
              && (forall k :: j <= k < |s| ==> IsSpace(s[k]))
  {
    var t := TrimStart(s);
    var i := |s| - |t|;
    var r := TrimEnd(t);
    TrimStartIsSuffix(s);
    TrimEndIsPrefix(t);
    assert Trim(s) == r == s[i..i + |r|];
    assert forall k :: 0 <= k < i ==> IsSpace(s[k]) by {
      TrimStartCutsSpace(s);
    }
    assert forall k :: i + |r| <= k < |s| ==> IsSpace(s[k]) by {
      TrimEndCutsSpace(t);
      forall k | i + |r| <= k < |s|
        ensures IsSpace(s[k])
      {
        assert s[k] == t[k - i];
      }
    }
  }

  /** A string with nothing to trim is left as it is. */
  lemma TrimOfTrimmed(s: string)
    requires IsTrimmed(s)
    ensures Trim(s) == s
  {
  }

  lemma TrimIdempotent(s: string)
    ensures Trim(Trim(s)) == Trim(s)
  {
    TrimOfTrimmed(Trim(s));
  }

  /** The UTF-16 code units a character takes: two (a surrogate pair) for a
      character outside the Basic Multilingual Plane, one for any other. */
  function CodeUnits(c: char): nat {
    if c as int >= 0x1_0000 then 2 else 1
  }

  /** String.prototype.length, which Mongoose's `minlength` and `maxlength`
      validators compare against: the number of UTF-16 code units. */
  function JsLength(s: string): (n: nat)
    ensures |s| <= n <= 2 * |s|
  {
    if s == [] then 0 else CodeUnits(s[0]) + JsLength(s[1..])
  }

  /** The lengths of two pieces add up. */
  lemma {:induction false} JsLengthConcat(a: string, b: string)
    ensures JsLength(a + b) == JsLength(a) + JsLength(b)
  {
    if a != [] {
      assert (a + b)[1..] == a[1..] + b;
      JsLengthConcat(a[1..], b);
    } else {
      assert a + b == b;
    }
  }

  /** The length counts characters exactly when none lies outside the Basic
      Multilingual Plane. */
  lemma {:induction false} JsLengthOfBmp(s: string)
    ensures JsLength(s) == |s| <==> forall i :: 0 <= i < |s| ==> s[i] as int < 0x1_0000
  {
    if s != [] {
      JsLengthOfBmp(s[1..]);
      assert forall i :: 1 <= i < |s| ==> s[i] == s[1..][i - 1];
    }
  }

  /** One character of the model's lower-casing: A-Z become a-z, every other
      character is kept (JavaScript's toLowerCase also folds non-ASCII
      letters; that is not modelled). */
  function LowerChar(c: char): char {
    if 'A' <= c <= 'Z' then (c as int + 32) as char else c
  }

  /** The model's lower-casing of a string: LowerChar on each character. */
  function Lower(s: string): (r: string)
    ensures |r| == |s|
  {
    if s == [] then [] else [LowerChar(s[0])] + Lower(s[1..])
  }

  /** Lower works character by character. */
  lemma {:induction false} LowerChars(s: string)
    ensures forall i :: 0 <= i < |s| ==> Lower(s)[i] == LowerChar(s[i])
  {
    if s != [] {
      LowerChars(s[1..]);
      assert forall i :: 1 <= i < |s| ==> Lower(s)[i] == Lower(s[1..])[i - 1];
    }
  }

  lemma LowerIdempotent(s: string)
    ensures Lower(Lower(s)) == Lower(s)
  {
    LowerChars(s);
    LowerChars(Lower(s));
  }

  /** Lower-casing does not touch spaces, so it does not matter whether a
      schema's `lowercase` setter runs before or after its `trim` setter. */
  lemma {:induction false} LowerTrimCommute(s: string)
    ensures Lower(Trim(s)) == Trim(Lower(s))
  {
    LowerTrimStart(s);
    LowerTrimEnd(TrimStart(s));
  }

  lemma LowerCharKeepsSpace(c: char)
    ensures IsSpace(LowerChar(c)) == IsSpace(c)
  {
  }

  lemma {:induction false} LowerTrimStart(s: string)
    ensures Lower(TrimStart(s)) == TrimStart(Lower(s))
  {
    if s != [] {
      var l := Lower(s);
      assert l[0] == LowerChar(s[0]);
      assert l[1..] == Lower(s[1..]);
      LowerCharKeepsSpace(s[0]);
      if IsSpace(s[0]) {
        assert TrimStart(s) == TrimStart(s[1..]);
        assert TrimStart(l) == TrimStart(l[1..]);
        LowerTrimStart(s[1..]);
      } else {
        assert TrimStart(s) == s;
        assert TrimStart(l) == l;
      }
    }
  }

  lemma {:induction false} LowerTrimEnd(s: string)
    ensures Lower(TrimEnd(s)) == TrimEnd(Lower(s))
  {
    if s != [] {
      var n := |s| - 1;
      LowerChars(s);
      LowerChars(s[..n]);
      assert Lower(s)[n] == LowerChar(s[n]);
      assert Lower(s)[..n] == Lower(s[..n]);
      LowerCharKeepsSpace(s[n]);
      if IsSpace(s[n]) {
        assert TrimEnd(s) == TrimEnd(s[..n]);
        assert TrimEnd(Lower(s)) == TrimEnd(Lower(s)[..n]);
        LowerTrimEnd(s[..n]);
      } else {
        assert TrimEnd(s) == s;
        assert TrimEnd(Lower(s)) == Lower(s);
      }
    }
  }

  /** Code-point order of strings: MongoDB's order for strings under the default
      (binary) collation, since UTF-8 preserves code-point order. */
  predicate LexLe(a: string, b: string)
    decreases |a|
  {
    a == [] || (b != [] && (a[0] < b[0] || (a[0] == b[0] && LexLe(a[1..], b[1..]))))
  }

  lemma {:induction false} LexLeTotal(a: string, b: string)
    ensures LexLe(a, b) || LexLe(b, a)
    decreases |a|
  {
    if a != [] && b != [] && a[0] == b[0] {
      LexLeTotal(a[1..], b[1..]);
    }
  }

  lemma {:induction false} LexLeTransitive(a: string, b: string, c: string)
    requires LexLe(a, b) && LexLe(b, c)
    ensures LexLe(a, c)
    decreases |a|
  {
    if a != [] && a[0] == b[0] && b[0] == c[0] {
      LexLeTransitive(a[1..], b[1..], c[1..]);
    }
  }

  lemma {:induction false} LexLeAntisymmetric(a: string, b: string)
    requires LexLe(a, b) && LexLe(b, a)
    ensures a == b
    decreases |a|
  {
    if a != [] {
      LexLeAntisymmetric(a[1..], b[1..]);
    }
  }

  /** The hex digit of a value below 16, lower case as Node.js writes it. */
  function HexDigit(v: nat): char
    requires v < 16
  {
    if v < 10 then ('0' as int + v) as char else ('a' as int + v - 10) as char
  }

  lemma HexValueOfDigit(v: nat)
    requires v < 16
    ensures HexValue(HexDigit(v)) == Some(v)
  {
  }

  /** The value of a lower-case hex digit. */
  function HexValue(c: char): (r: Option<nat>)
    ensures r.Some? ==> r.value < 16
  {
    if '0' <= c <= '9' then Some(c as int - '0' as int)
    else if 'a' <= c <= 'f' then Some(c as int - 'a' as int + 10)
    else None
  }

  /** Buffer.toString('hex'): two lower-case digits per byte, high nibble first. */
  function ToHex(bytes: seq<Byte>): (r: string)
    ensures |r| == 2 * |bytes|
    ensures forall i :: 0 <= i < |r| ==> HexValue(r[i]).Some?
  {
    if bytes == [] then []
    else [HexDigit(bytes[0] / 16), HexDigit(bytes[0] % 16)] + ToHex(bytes[1..])
  }

  /** The inverse of ToHex: None for an odd length or a character that is not a lower-case hex digit. */
  function FromHex(s: string): Option<seq<Byte>>
    decreases |s|
  {
    if s == [] then Some([])
    else if |s| == 1 then None
    else
      var hi, lo, rest := HexValue(s[0]), HexValue(s[1]), FromHex(s[2..]);
      if hi.Some? && lo.Some? && rest.Some? then Some([hi.value * 16 + lo.value] + rest.value) else None
  }

  /** FromHex reads one pair of digits, then the rest. */
  lemma FromHexPair(s: string, hi: nat, lo: nat)
    requires |s| >= 2 && HexValue(s[0]) == Some(hi) && HexValue(s[1]) == Some(lo)
    ensures FromHex(s) == if FromHex(s[2..]).Some? then Some([hi * 16 + lo] + FromHex(s[2..]).value) else None
  {
  }

  /** The hex encoding loses nothing: decoding gives the bytes back. */
  lemma {:induction false} HexRoundTrip(bytes: seq<Byte>)
    ensures FromHex(ToHex(bytes)) == Some(bytes)
  {
    if bytes != [] {
      var b := bytes[0];
      HexValueOfDigit(b / 16);
      HexValueOfDigit(b % 16);
      HexRoundTrip(bytes[1..]);
      var s := ToHex(bytes);
      assert s[..2] == [HexDigit(b / 16), HexDigit(b % 16)] && s[2..] == ToHex(bytes[1..]);
      FromHexPair(s, b / 16, b % 16);
      assert [b] + bytes[1..] == bytes;
    }
  }
}
