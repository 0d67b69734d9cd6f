/**
 The key codec of the NATS driver: keys split on "/" become base58 words joined with ".", so that path separators
 turn into the token separators of a subject while the wildcard tokens stay what they are.
 */
module KeyCodec {
  import opened Tables

  const DOT: Byte := 46
  const GREATER: Byte := 62
  const STAR: Byte := 42

  /* strings.Split and strings.Join with a one-byte separator. */

  function Split(s: Bytes, sep: Byte): (parts: seq<Bytes>)
    ensures parts != []
  {
    if s == [] then [[]]
    else
      var rest := Split(s[1..], sep);
      if s[0] == sep then [[]] + rest else [[s[0]] + rest[0]] + rest[1..]
  }

  function Join(parts: seq<Bytes>, sep: Byte): Bytes {
    if parts == [] then []
    else if |parts| == 1 then parts[0]
    else parts[0] + [sep] + Join(parts[1..], sep)
  }

  lemma {:induction false} JoinSplit(s: Bytes, sep: Byte)
    ensures Join(Split(s, sep), sep) == s
  {
    if s != [] {
      JoinSplit(s[1..], sep);
      var rest := Split(s[1..], sep);
      assert s == [s[0]] + s[1..];
      if s[0] == sep {
        JoinCons([], rest, sep);
      } else {
        JoinExtend(s[0], rest, sep);
      }
    }
  }

  lemma JoinCons(part: Bytes, rest: seq<Bytes>, sep: Byte)
    requires rest != []
    ensures Join([part] + rest, sep) == part + [sep] + Join(rest, sep)
  {
    assert ([part] + rest)[1..] == rest;
  }

  lemma JoinExtend(b: Byte, parts: seq<Bytes>, sep: Byte)
    requires parts != []
    ensures Join([[b] + parts[0]] + parts[1..], sep) == [b] + Join(parts, sep)
  {
    var longer := [[b] + parts[0]] + parts[1..];
    assert longer[0] == [b] + parts[0] && longer[1..] == parts[1..];
    if |parts| > 1 {
      assert [b] + parts[0] + [sep] + Join(parts[1..], sep) == [b] + (parts[0] + [sep] + Join(parts[1..], sep));
    }
  }

  lemma {:induction false} SplitWord(w: Bytes, tail: Bytes, sep: Byte)
    requires sep !in w
    ensures Split(w, sep) == [w]
    ensures Split(w + [sep] + tail, sep) == [w] + Split(tail, sep)
    decreases |w|
  {
    var s := w + [sep] + tail;
    if w == [] {
      assert s[1..] == tail;
    } else {
      SplitWord(w[1..], tail, sep);
      assert s[1..] == w[1..] + [sep] + tail;
      assert w == [w[0]] + w[1..];
    }
  }

  lemma {:induction false} SplitJoin(parts: seq<Bytes>, sep: Byte)
    requires parts != [] && forall i :: 0 <= i < |parts| ==> sep !in parts[i]
    ensures Split(Join(parts, sep), sep) == parts
    decreases |parts|
  {
    if |parts| == 1 {
      SplitWord(parts[0], [], sep);
    } else {
      SplitJoin(parts[1..], sep);
      SplitWord(parts[0], Join(parts[1..], sep), sep);
    }
  }

  /* Numbers in a base, most significant digit first. */

  function Value(ds: seq<nat>, base: nat): nat {
    if ds == [] then 0 else Value(ds[..|ds| - 1], base) * base + ds[|ds| - 1]
  }

  function Digits(n: nat, base: nat): seq<nat>
    requires 2 <= base
    decreases n
  {
    if n == 0 then [] else DivideSmaller(n, base); Digits(n / base, base) + [n % base]
  }

  lemma DivideSmaller(n: nat, base: nat)
    requires 0 < n && 2 <= base
    ensures 0 <= n / base < n && n == (n / base) * base + n % base
  {
    var q: nat, r: nat := n / base, n % base;
    assert n == q * base + r;
    SmallQuotient(n, q, r, base);
  }

  lemma SmallQuotient(n: nat, q: nat, r: nat, base: nat)
    requires 0 < n && 2 <= base && n == q * base + r
    ensures q < n
  {
    TimesAtLeast(base, 2, q);
  }

  lemma TimesAtLeast(x: nat, y: nat, k: nat)
    requires y <= x
    ensures y * k <= x * k
  {
    assert (x - y) * k == x * k - y * k;
  }

  lemma UniqueQuotient(x: nat, d: nat, y: nat, e: nat, base: nat)
    requires d < base && e < base && x * base + d == y * base + e
    ensures x == y && d == e
  {
    if x < y { Apart(x, y, base); }
    if y < x { Apart(y, x, base); }
  }

  lemma Apart(x: nat, y: nat, base: nat)
    requires x < y
    ensures x * base + base <= y * base
  {
    assert (y - x) * base == y * base - x * base;
    assert (y - x - 1) * base >= 0;
  }

  lemma ValueAppend(ds: seq<nat>, d: nat, base: nat)
    ensures Value(ds + [d], base) == Value(ds, base) * base + d
  {
    assert (ds + [d])[..|ds|] == ds;
  }

  lemma {:induction false} ValueOfDigits(n: nat, base: nat)
    requires 2 <= base
    ensures Value(Digits(n, base), base) == n
    decreases n
  {
    if n != 0 {
      DivideSmaller(n, base);
      ValueOfDigits(n / base, base);
      ValueAppend(Digits(n / base, base), n % base, base);
    }
  }

  lemma {:induction false} DigitsAreDigits(n: nat, base: nat)
    requires 2 <= base
    ensures n != 0 ==> Digits(n, base) != [] && Digits(n, base)[0] != 0
    ensures forall i :: 0 <= i < |Digits(n, base)| ==> Digits(n, base)[i] < base
    decreases n
  {
    if n != 0 {
      DivideSmaller(n, base);
      DigitsAreDigits(n / base, base);
    }
  }

  lemma {:induction false} ValuePositive(ds: seq<nat>, base: nat)
    requires 0 < base && ds != [] && ds[0] != 0
    ensures Value(ds, base) != 0
  {
    if |ds| > 1 {
      ValuePositive(ds[..|ds| - 1], base);
      assert Value(ds[..|ds| - 1], base) * base >= 1;
    }
  }

  lemma {:induction false} DigitsOfValue(ds: seq<nat>, base: nat)
    requires 2 <= base && (ds != [] ==> ds[0] != 0)
    requires forall i :: 0 <= i < |ds| ==> ds[i] < base
    ensures Digits(Value(ds, base), base) == ds
  {
    if ds != [] {
      var front, last, n := ds[..|ds| - 1], ds[|ds| - 1], Value(ds, base);
      DigitsOfValue(front, base);
      ValuePositive(ds, base);
      DivideSmaller(n, base);
      UniqueQuotient(n / base, n % base, Value(front, base), last, base);
      assert ds == front + [last];
    }
  }

  /* base58 over the Bitcoin alphabet: leading zero bytes become leading ones, the rest is the number in base 58. */

  predicate IsLetter(c: int) {
    49 <= c <= 57 || 65 <= c <= 72 || 74 <= c <= 78 || 80 <= c <= 90 || 97 <= c <= 107 || 109 <= c <= 122
  }

  function Letter(d: nat): Byte
    requires d < 58
  {
    if d < 9 then 49 + d
    else if d < 17 then 65 + (d - 9)
    else if d < 22 then 74 + (d - 17)
    else if d < 33 then 80 + (d - 22)
    else if d < 44 then 97 + (d - 33)
    else 109 + (d - 44)
  }

  function IndexOf(c: Byte): (d: nat)
    requires IsLetter(c)
    ensures d < 58 && Letter(d) == c
  {
    if c <= 57 then c - 49
    else if c <= 72 then c - 65 + 9
    else if c <= 78 then c - 74 + 17
    else if c <= 90 then c - 80 + 22
    else if c <= 107 then c - 97 + 33
    else c - 109 + 44
  }

  /** The letters come in the order of their values, and they are all the letters there are. */
  lemma LettersInOrder(c: Byte)
    ensures forall d: nat, e: nat :: d < e < 58 ==> Letter(d) < Letter(e)
    ensures IsLetter(c) <==> exists d: nat :: d < 58 && Letter(d) == c
  {
    if IsLetter(c) { assert Letter(IndexOf(c)) == c; }
  }

  function Repeat(b: Byte, n: nat): Bytes {
    seq(n, _ => b)
  }

  function Leading(s: Bytes, b: Byte): (n: nat)
    ensures n <= |s|
    ensures forall i :: 0 <= i < n ==> s[i] == b
    ensures n < |s| ==> s[n] != b
  {
    if s == [] || s[0] != b then 0 else 1 + Leading(s[1..], b)
  }

  function Letters(ds: seq<nat>): Bytes
    requires forall i :: 0 <= i < |ds| ==> ds[i] < 58
  {
    seq(|ds|, i requires 0 <= i < |ds| => Letter(ds[i]))
  }

  function Indices(s: Bytes): seq<nat>
    requires forall i :: 0 <= i < |s| ==> IsLetter(s[i])
  {
    seq(|s|, i requires 0 <= i < |s| => IndexOf(s[i]))
  }

  function AsNumbers(s: Bytes): (ds: seq<nat>)
    ensures |ds| == |s| && forall i :: 0 <= i < |ds| ==> ds[i] < 256
  {
    seq(|s|, i requires 0 <= i < |s| => s[i])
  }

  function AsBytes(ds: seq<nat>): Bytes
    requires forall i :: 0 <= i < |ds| ==> ds[i] < 256
  {
    seq(|ds|, i requires 0 <= i < |ds| => ds[i])
  }

  function Encode58(s: Bytes): Bytes {
    var z := Leading(s, 0);
    var n := Value(AsNumbers(s[z..]), 256);
    DigitsAreDigits(n, 58);
    Repeat(49, z) + Letters(Digits(n, 58))
  }

  function Decode58(s: Bytes): Option<Bytes> {
    if exists i :: 0 <= i < |s| && !IsLetter(s[i]) then None
    else
      var z := Leading(s, 49);
      var n := Value(Indices(s[z..]), 58);
      DigitsAreDigits(n, 256);
      Some(Repeat(0, z) + AsBytes(Digits(n, 256)))
  }

  lemma LeadingIs(s: Bytes, b: Byte, n: nat)
    requires n <= |s| && (forall i :: 0 <= i < n ==> s[i] == b) && (n < |s| ==> s[n] != b)
    ensures Leading(s, b) == n
  {}

  lemma EncodedIsLetters(s: Bytes)
    ensures forall i :: 0 <= i < |Encode58(s)| ==> IsLetter(Encode58(s)[i])
    ensures DOT !in Encode58(s)
  {
    var z := Leading(s, 0);
    var n := Value(AsNumbers(s[z..]), 256);
    DigitsAreDigits(n, 58);
    var letters := Letters(Digits(n, 58));
    assert Encode58(s) == Repeat(49, z) + letters;
    forall i | 0 <= i < |letters| ensures IsLetter(letters[i]) {}
  }

  /** Where the leading ones of an encoded string end, and the digits behind them. */
  lemma EncodedDigits(s: Bytes)
    ensures var n := Value(AsNumbers(s[Leading(s, 0)..]), 256);
            && Leading(Encode58(s), 49) == Leading(s, 0)
            && (forall i :: 0 <= i < |Digits(n, 58)| ==> Digits(n, 58)[i] < 58)
            && Encode58(s)[Leading(s, 0)..] == Letters(Digits(n, 58))
  {
    var z, e := Leading(s, 0), Encode58(s);
    var n := Value(AsNumbers(s[z..]), 256);
    var ds := Digits(n, 58);
    DigitsAreDigits(n, 58);
    assert ds != [] ==> Letter(ds[0]) != 49;
    PaddingLeads(49, z, Letters(ds));
  }

  lemma PaddingLeads(b: Byte, z: nat, tail: Bytes)
    requires tail != [] ==> tail[0] != b
    ensures Leading(Repeat(b, z) + tail, b) == z && (Repeat(b, z) + tail)[z..] == tail
  {
    var s := Repeat(b, z) + tail;
    assert z < |s| ==> s[z] == tail[0];
    LeadingIs(s, b, z);
  }

  lemma IndicesOfLetters(ds: seq<nat>)
    requires forall i :: 0 <= i < |ds| ==> ds[i] < 58
    ensures forall i :: 0 <= i < |Letters(ds)| ==> IsLetter(Letters(ds)[i])
    ensures Indices(Letters(ds)) == ds
  {}

  /** Behind as many ones as there are leading zeros, the letters spell the same number in base 58. */
  lemma EncodesTheNumber(s: Bytes)
    ensures var z := Leading(s, 0);
            && Leading(Encode58(s), 49) == z
            && (forall i :: 0 <= i < |Encode58(s)[z..]| ==> IsLetter(Encode58(s)[z..][i]))
            && Value(Indices(Encode58(s)[z..]), 58) == Value(AsNumbers(s[z..]), 256)
  {
    var n := Value(AsNumbers(s[Leading(s, 0)..]), 256);
    EncodedIsLetters(s);
    EncodedDigits(s);
    IndicesOfLetters(Digits(n, 58));
    ValueOfDigits(n, 58);
  }

  /** The bytes behind the leading zeros are the digits of their own value in base 256. */
  lemma BytesOfValue(s: Bytes)
    ensures var ds := AsNumbers(s[Leading(s, 0)..]);
            && Digits(Value(ds, 256), 256) == ds
            && s == Repeat(0, Leading(s, 0)) + AsBytes(ds)
  {
    var tail := s[Leading(s, 0)..];
    DigitsOfValue(AsNumbers(tail), 256);
    assert AsBytes(AsNumbers(tail)) == tail;
    assert s == Repeat(0, Leading(s, 0)) + tail;
  }

  lemma Base58RoundTrip(s: Bytes)
    ensures Decode58(Encode58(s)) == Some(s)
  {
    var n := Value(AsNumbers(s[Leading(s, 0)..]), 256);
    EncodedIsLetters(s);
    EncodedDigits(s);
    IndicesOfLetters(Digits(n, 58));
    ValueOfDigits(n, 58);
    BytesOfValue(s);
  }

  ghost predicate OfLetters(w: Bytes) {
    forall i :: 0 <= i < |w| ==> IsLetter(w[i])
  }

  /** The number a word of letters stands for, and the bytes it decodes to. */
  lemma DecodedNumber(w: Bytes, z: nat, n: nat)
    requires OfLetters(w) && z == Leading(w, 49) && n == Value(Indices(w[z..]), 58)
    ensures Decode58(w).Some? && Leading(Decode58(w).value, 0) == z
    ensures AsNumbers(Decode58(w).value[z..]) == Digits(n, 256)
  {
    DigitsAreDigits(n, 256);
    PaddingLeads(0, z, AsBytes(Digits(n, 256)));
  }

  lemma WordOfNumber(w: Bytes, z: nat, n: nat)
    requires OfLetters(w) && z == Leading(w, 49) && n == Value(Indices(w[z..]), 58)
    ensures forall i :: 0 <= i < |Digits(n, 58)| ==> Digits(n, 58)[i] < 58
    ensures w == Repeat(49, z) + Letters(Digits(n, 58))
  {
    DigitsAreDigits(n, 58);
    DigitsOfValue(Indices(w[z..]), 58);
    assert Letters(Indices(w[z..])) == w[z..];
    assert w == Repeat(49, z) + w[z..];
  }

  /** A word of letters is the form of the bytes it decodes to, so no two words decode to the same bytes. */
  lemma Base58Inverse(w: Bytes)
    ensures Decode58(w).Some? <==> OfLetters(w)
    ensures Decode58(w).Some? ==> Encode58(Decode58(w).value) == w
  {
    if OfLetters(w) {
      var z := Leading(w, 49);
      var n := Value(Indices(w[z..]), 58);
      DecodedNumber(w, z, n);
      WordOfNumber(w, z, n);
      ValueOfDigits(n, 256);
    }
  }

  /* The codec. */

  predicate IsWildcard(part: Bytes) {
    part == [GREATER] || part == [STAR]
  }

  function EncodePart(part: Bytes): Bytes {
    if IsWildcard(part) then part else Encode58(part)
  }

  function TrimSlash(key: Key): Key {
    if key != [] && key[0] == SLASH then key[1..] else key
  }

  function EncodeParts(parts: seq<Bytes>): seq<Bytes> {
    seq(|parts|, i requires 0 <= i < |parts| => EncodePart(parts[i]))
  }

  function EncodeKey(key: Key): Bytes {
    Join(EncodeParts(Split(TrimSlash(key), SLASH)), DOT)
  }

  function DecodeParts(words: seq<Bytes>): Option<seq<Bytes>> {
    if words == [] then Some([])
    else
      var front := DecodeParts(words[..|words| - 1]);
      var last := Decode58(words[|words| - 1]);
      if front.Some? && last.Some? then Some(front.value + [last.value]) else None
  }

  function DecodeKey(key: Bytes): Option<Key> {
    match DecodeParts(Split(key, DOT))
    case None => None
    case Some(parts) => Some([SLASH] + Join(parts, SLASH))
  }

  method Encode(key: Key) returns (encoded: Bytes)
    ensures encoded == EncodeKey(key)
  {
    var split := Split(TrimSlash(key), SLASH);
    var parts: seq<Bytes> := [];
    for i := 0 to |split|
      invariant parts == EncodeParts(split[..i])
    {
      if IsWildcard(split[i]) {
        parts := parts + [split[i]];
      } else {
        parts := parts + [Encode58(split[i])];
      }
    }
    assert split[..|split|] == split;
    encoded := Join(parts, DOT);
  }

  method Decode(key: Bytes) returns (decoded: Option<Key>)
    ensures decoded == DecodeKey(key)
  {
    var words := Split(key, DOT);
    var parts: seq<Bytes> := [];
    assert words[..0] == [];
    for i := 0 to |words|
      invariant DecodeParts(words[..i]) == Some(parts)
    {
      assert words[..i + 1][..i] == words[..i];
      var part := Decode58(words[i]);
      if part.None? {
        FailsAt(words, i);
        return None;
      }
      parts := parts + [part.value];
    }
    assert words[..|words|] == words;
    decoded := Some([SLASH] + Join(parts, SLASH));
  }

  lemma {:induction false} FailsAt(words: seq<Bytes>, i: nat)
    requires i < |words| && Decode58(words[i]).None?
    ensures DecodeParts(words).None?
  {
    if i < |words| - 1 { FailsAt(words[..|words| - 1], i); }
  }

  lemma DecodeOneMore(words: seq<Bytes>, word: Bytes, parts: seq<Bytes>, part: Bytes)
    requires DecodeParts(words) == Some(parts) && Decode58(word) == Some(part)
    ensures DecodeParts(words + [word]) == Some(parts + [part])
  {
    assert (words + [word])[..|words|] == words;
  }

  lemma EncodeOneMore(parts: seq<Bytes>, part: Bytes)
    ensures EncodeParts(parts + [part]) == EncodeParts(parts) + [EncodePart(part)]
  {
    var all, longer := parts + [part], EncodeParts(parts) + [EncodePart(part)];
    forall i | 0 <= i < |all| ensures EncodeParts(all)[i] == longer[i] {}
  }

  ghost predicate NoWildcards(parts: seq<Bytes>) {
    forall i :: 0 <= i < |parts| ==> !IsWildcard(parts[i])
  }

  lemma {:induction false} PartsRoundTrip(parts: seq<Bytes>)
    requires NoWildcards(parts)
    ensures DecodeParts(EncodeParts(parts)) == Some(parts)
  {
    if parts == [] {
      assert EncodeParts(parts) == [];
    } else {
      var front, last := parts[..|parts| - 1], parts[|parts| - 1];
      assert parts == front + [last];
      PartsRoundTrip(front);
      EncodeOneMore(front, last);
      Base58RoundTrip(last);
      DecodeOneMore(EncodeParts(front), EncodePart(last), front, last);
    }
  }

  /** The words the decoder finds are the words the encoder joined: none of them contains the separator. */
  lemma EncodedWords(key: Key)
    ensures Split(EncodeKey(key), DOT) == EncodeParts(Split(TrimSlash(key), SLASH))
  {
    var parts := Split(TrimSlash(key), SLASH);
    forall i | 0 <= i < |parts| ensures DOT !in EncodePart(parts[i]) { EncodedIsLetters(parts[i]); }
    SplitJoin(EncodeParts(parts), DOT);
  }

  lemma WildcardFails(parts: seq<Bytes>, i: nat)
    requires i < |parts| && IsWildcard(parts[i])
    ensures DecodeParts(EncodeParts(parts)).None?
  {
    var words := EncodeParts(parts);
    assert words[i] == parts[i] && !IsLetter(words[i][0]);
    FailsAt(words, i);
  }

  lemma DecodesToTrimmed(key: Key)
    ensures DecodeKey(EncodeKey(key))
         == if NoWildcards(Split(TrimSlash(key), SLASH)) then Some([SLASH] + TrimSlash(key)) else None
  {
    var parts := Split(TrimSlash(key), SLASH);
    EncodedWords(key);
    if NoWildcards(parts) {
      PartsRoundTrip(parts);
      JoinSplit(TrimSlash(key), SLASH);
    } else {
      var i :| 0 <= i < |parts| && IsWildcard(parts[i]);
      WildcardFails(parts, i);
    }
  }

  /** A key comes back exactly when it starts with a slash and none of its parts is a wildcard token. */
  lemma RoundTripIff(key: Key)
    ensures DecodeKey(EncodeKey(key)) == Some(key) <==>
            && key != [] && key[0] == SLASH
            && NoWildcards(Split(key[1..], SLASH))
  {
    DecodesToTrimmed(key);
    if key != [] && key[0] == SLASH {
      assert key == [SLASH] + key[1..];
    }
  }

  /** Wildcard tokens stay what they are, and "a" becomes "2g", as 97 is 1 * 58 + 39. */
  lemma OneByteWords(b: Byte)
    ensures 58 <= b ==> Encode58([b]) == [Letter(b / 58), Letter(b % 58)]
    ensures b == 97 ==> EncodePart([b]) == [50, 103]
    ensures b == STAR || b == GREATER ==> EncodePart([b]) == [b]
  {
    if 58 <= b {
      assert [b][0..] == [b] && AsNumbers([b]) == [b] && [b][..0] == [];
      assert Value([b], 256) == b;
      assert Digits(b / 58, 58) == [b / 58] && Digits(b, 58) == [b / 58, b % 58];
    }
  }

  /** Three words under a slash. */
  lemma ThreeWords(a: Bytes, b: Bytes, c: Bytes)
    requires SLASH !in a && SLASH !in b && SLASH !in c
    ensures EncodeKey([SLASH] + a + [SLASH] + b + [SLASH] + c)
         == EncodePart(a) + [DOT] + EncodePart(b) + [DOT] + EncodePart(c)
  {
    var key := [SLASH] + a + [SLASH] + b + [SLASH] + c;
    assert key[1..] == a + [SLASH] + (b + [SLASH] + c);
    SplitWord(c, [], SLASH);
    SplitWord(b, c, SLASH);
    SplitWord(a, b + [SLASH] + c, SLASH);
    assert Split(TrimSlash(key), SLASH) == [a, b, c];
    JoinThree(EncodePart(a), EncodePart(b), EncodePart(c));
    assert EncodeParts([a, b, c]) == [EncodePart(a), EncodePart(b), EncodePart(c)];
  }

  lemma JoinThree(a: Bytes, b: Bytes, c: Bytes)
    ensures Join([a, b, c], DOT) == a + [DOT] + b + [DOT] + c
  {
    JoinCons(b, [c], DOT);
    JoinCons(a, [b, c], DOT);
    assert [a] + [b, c] == [a, b, c] && [b] + [c] == [b, c];
    assert a + [DOT] + (b + [DOT] + c) == a + [DOT] + b + [DOT] + c;
  }
}
