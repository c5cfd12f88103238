/** Unpadded base64url as in section 5 of RFC 4648, decoded the way Go's RawURLEncoding does:
    line breaks are skipped and the unused low bits of the last symbol are not checked. */
module Base64 {
  import opened Common

  predicate Bytes(s: string) {
    forall i :: 0 <= i < |s| ==> s[i] as int < 256
  }

  // ----- six-bit groups -----

  predicate Sextets(vs: seq<int>) {
    forall i :: 0 <= i < |vs| ==> 0 <= vs[i] < 64
  }

  // Three bytes are four six-bit values.
  function Group(x: char, y: char, z: char): (vs: seq<int>)
    requires x as int < 256 && y as int < 256 && z as int < 256
    ensures Sextets(vs) && |vs| == 4
  {
    var a, b, c := x as int, y as int, z as int;
    [a / 4, a % 4 * 16 + b / 16, b % 16 * 4 + c / 64, c % 64]
  }

  function Ungroup(vs: seq<int>): (s: string)
    requires Sextets(vs) && |vs| == 4
    ensures Bytes(s) && |s| == 3
  {
    [(vs[0] * 4 + vs[1] / 16) as char, (vs[1] % 16 * 16 + vs[2] / 4) as char, (vs[2] % 4 * 64 + vs[3]) as char]
  }

  lemma UngroupGroup(x: char, y: char, z: char)
    requires x as int < 256 && y as int < 256 && z as int < 256
    ensures Ungroup(Group(x, y, z)) == [x, y, z]
  {
    var a, b, c := x as int, y as int, z as int;
    assert a / 4 * 4 + (a % 4 * 16 + b / 16) / 16 == a;
    assert (a % 4 * 16 + b / 16) % 16 * 16 + (b % 16 * 4 + c / 64) / 4 == b;
    assert (b % 16 * 4 + c / 64) % 4 * 64 + c % 64 == c;
  }

  // A last group of one or two bytes keeps two or three values of the group padded with zeros.
  function Split(s: string): (vs: seq<int>)
    requires Bytes(s)
    ensures Sextets(vs) && |vs| % 4 != 1
  {
    if s == "" then []
    else if |s| == 1 then Group(s[0], 0 as char, 0 as char)[..2]
    else if |s| == 2 then Group(s[0], s[1], 0 as char)[..3]
    else Group(s[0], s[1], s[2]) + Split(s[3..])
  }

  // The unused low bits of the last value are ignored.
  function Join(vs: seq<int>): (r: Option<string>)
    requires Sextets(vs)
    ensures r.Some? ==> Bytes(r.value)
    ensures r.Some? <==> |vs| % 4 != 1
  {
    if vs == [] then Some("")
    else if |vs| == 1 then None
    else if |vs| == 2 then Some(Ungroup(vs + [0, 0])[..1])
    else if |vs| == 3 then Some(Ungroup(vs + [0])[..2])
    else
      var rest := Join(vs[4..]);
      if rest.None? then None else Some(Ungroup(vs[..4]) + rest.value)
  }

  lemma JoinLastOne(x: char)
    requires x as int < 256
    ensures Join(Split([x])) == Some([x])
  {
    var g := Group(x, 0 as char, 0 as char);
    UngroupGroup(x, 0 as char, 0 as char);
    assert Split([x]) == g[..2] && g[..2] + [0, 0] == g;
    assert Join(g[..2]) == Some(Ungroup(g)[..1]);
    assert [x, 0 as char, 0 as char][..1] == [x];
  }

  lemma JoinLastTwo(x: char, y: char)
    requires x as int < 256 && y as int < 256
    ensures Join(Split([x, y])) == Some([x, y])
  {
    var g := Group(x, y, 0 as char);
    UngroupGroup(x, y, 0 as char);
    assert Split([x, y]) == g[..3] && g[..3] + [0] == g;
    assert Join(g[..3]) == Some(Ungroup(g)[..2]);
    assert [x, y, 0 as char][..2] == [x, y];
  }

  lemma {:induction false} JoinSplit(s: string)
    requires Bytes(s)
    ensures Join(Split(s)) == Some(s)
  {
    if |s| == 1 {
      JoinLastOne(s[0]);
      assert s == [s[0]];
    } else if |s| == 2 {
      JoinLastTwo(s[0], s[1]);
      assert s == [s[0], s[1]];
    } else if |s| >= 3 {
      JoinSplit(s[3..]);
      UngroupGroup(s[0], s[1], s[2]);
      assert Split(s)[..4] == Group(s[0], s[1], s[2]) && Split(s)[4..] == Split(s[3..]);
      assert s == [s[0], s[1], s[2]] + s[3..];
    }
  }

  // ----- the alphabet -----

  function Symbol(v: int): char
    requires 0 <= v < 64
  {
    if v < 26 then ('A' as int + v) as char
    else if v < 52 then ('a' as int + v - 26) as char
    else if v < 62 then ('0' as int + v - 52) as char
    else if v == 62 then '-'
    else '_'
  }

  // The value of a symbol, or -1 outside the alphabet.
  function SymbolValue(c: char): (v: int)
    ensures -1 <= v < 64
  {
    if 'A' <= c <= 'Z' then c as int - 'A' as int
    else if 'a' <= c <= 'z' then c as int - 'a' as int + 26
    else if '0' <= c <= '9' then c as int - '0' as int + 52
    else if c == '-' then 62
    else if c == '_' then 63
    else -1
  }

  lemma SymbolRoundTrip(v: int)
    requires 0 <= v < 64
    ensures SymbolValue(Symbol(v)) == v
  {
  }

  function Symbols(vs: seq<int>): (t: string)
    requires Sextets(vs)
    ensures |t| == |vs|
  {
    if vs == [] then "" else Symbols(vs[..|vs| - 1]) + [Symbol(vs[|vs| - 1])]
  }

  predicate InAlphabet(t: string) {
    forall i :: 0 <= i < |t| ==> SymbolValue(t[i]) >= 0
  }

  function Values(t: string): (vs: seq<int>)
    requires InAlphabet(t)
    ensures Sextets(vs) && |vs| == |t|
  {
    if t == "" then [] else Values(t[..|t| - 1]) + [SymbolValue(t[|t| - 1])]
  }

  lemma {:induction false} ValuesOfSymbols(vs: seq<int>)
    requires Sextets(vs)
    ensures InAlphabet(Symbols(vs)) && Values(Symbols(vs)) == vs
  {
    if vs != [] {
      ValuesOfSymbols(vs[..|vs| - 1]);
      SymbolRoundTrip(vs[|vs| - 1]);
      assert Symbols(vs)[..|vs| - 1] == Symbols(vs[..|vs| - 1]);
    }
  }

  // ----- the codec -----

  function Encode(s: string): string
    requires Bytes(s)
  {
    Symbols(Split(s))
  }

  function WithoutLineBreaks(t: string): string {
    if t == "" then ""
    else (if t[0] == '\n' || t[0] == '\r' then "" else [t[0]]) + WithoutLineBreaks(t[1..])
  }

  function Decode(t: string): Option<string> {
    var u := WithoutLineBreaks(t);
    if InAlphabet(u) then Join(Values(u)) else None
  }

  lemma {:induction false} NothingToSkip(t: string)
    requires InAlphabet(t)
    ensures WithoutLineBreaks(t) == t
  {
    if t != "" {
      NothingToSkip(t[1..]);
      assert t == [t[0]] + t[1..];
    }
  }

  /** Decoding an encoded byte string gives it back, for every byte string. */
  lemma RoundTrip(s: string)
    requires Bytes(s)
    ensures Decode(Encode(s)) == Some(s)
  {
    ValuesOfSymbols(Split(s));
    NothingToSkip(Encode(s));
    JoinSplit(s);
  }

  /** Encoded text never holds a character outside the alphabet, so it can be cut at one. */
  lemma NoSeparator(s: string, c: char)
    requires Bytes(s) && SymbolValue(c) < 0
    ensures c !in Encode(s)
  {
    ValuesOfSymbols(Split(s));
  }

  lemma {:induction false} OnlyBreaksGo(t: string, c: char)
    requires c in t && c != '\n' && c != '\r'
    ensures c in WithoutLineBreaks(t)
  {
    if t[0] != c {
      OnlyBreaksGo(t[1..], c);
    }
  }

  /** Text that decodes holds nothing but the alphabet and line breaks. */
  lemma DecodesWithout(t: string, c: char)
    requires Decode(t).Some? && SymbolValue(c) < 0 && c != '\n' && c != '\r'
    ensures c !in t
  {
    if c in t {
      OnlyBreaksGo(t, c);
    }
  }

  // ----- the format -----

  /** Table 2 of RFC 4648: capitals, small letters and digits each in a row, then the two signs; a
      symbol has a value exactly where the value has that symbol. */
  lemma AlphabetExactly(v: int, c: char)
    ensures (Symbol(0), Symbol(25), Symbol(26), Symbol(51)) == ('A', 'Z', 'a', 'z')
    ensures (Symbol(52), Symbol(61), Symbol(62), Symbol(63)) == ('0', '9', '-', '_')
    ensures 0 <= v < 61 && v != 25 && v != 51 ==> Symbol(v + 1) as int == Symbol(v) as int + 1
    ensures 0 <= v < 64 ==> (SymbolValue(c) == v <==> c == Symbol(v))
  {
    if 0 <= v < 64 {
      SymbolRoundTrip(v);
      if SymbolValue(c) == v {
        ValueRoundTrip(c);
      }
    }
  }

  lemma ValueRoundTrip(c: char)
    requires SymbolValue(c) >= 0
    ensures Symbol(SymbolValue(c)) == c
  {
  }

  /** A group is one number, written to base 256 and to base 64. */
  lemma GroupIsOneNumber(x: char, y: char, z: char)
    requires x as int < 256 && y as int < 256 && z as int < 256
    ensures var vs := Group(x, y, z);
            (x as int * 256 + y as int) * 256 + z as int == ((vs[0] * 64 + vs[1]) * 64 + vs[2]) * 64 + vs[3]
  {
    OneNumber(x as int, y as int, z as int);
  }

  lemma OneNumber(a: int, b: int, c: int)
    requires 0 <= a < 256 && 0 <= b < 256 && 0 <= c < 256
    ensures (a * 256 + b) * 256 + c == ((a / 4 * 64 + (a % 4 * 16 + b / 16)) * 64 + (b % 16 * 4 + c / 64)) * 64 + c % 64
  {
    var q, r, s, t, u, w := a / 4, a % 4, b / 16, b % 16, c / 64, c % 64;
    assert a == q * 4 + r && b == s * 16 + t && c == u * 64 + w;
  }

  lemma HighBits(a: int, b: int)
    requires 0 <= a < 64 && 0 <= b < 64
    ensures (a * 4 + b / 16) / 4 == a
  {
  }

  lemma MiddleBits(a: int, b: int, c: int)
    requires 0 <= a < 64 && 0 <= b < 64 && 0 <= c < 64
    ensures (a * 4 + b / 16) % 4 * 16 + (b % 16 * 16 + c / 4) / 16 == b
  {
  }

  lemma GroupUngroup(vs: seq<int>)
    requires Sextets(vs) && |vs| == 4
    ensures var s := Ungroup(vs);
            Group(s[0], s[1], s[2]) == vs
  {
    HighBits(vs[0], vs[1]);
    MiddleBits(vs[0], vs[1], vs[2]);
    assert (vs[1] % 16 * 16 + vs[2] / 4) % 16 * 4 + (vs[2] % 4 * 64 + vs[3]) / 64 == vs[2];
    assert (vs[2] % 4 * 64 + vs[3]) % 64 == vs[3];
  }

  // The same values but for the last.
  ghost predicate SameFront<T(!new)>(a: seq<T>, b: seq<T>) {
    |a| == |b| && forall i :: 0 <= i < |a| - 1 ==> a[i] == b[i]
  }

  lemma SplitLastTwo(vs: seq<int>)
    requires Sextets(vs) && |vs| == 2
    ensures SameFront(Split(Join(vs).value), vs)
  {
    var a, b := vs[0], vs[1];
    assert vs == [a, b];
    JoinTwo(a, b);
    HighBits(a, b);
    SplitOne((a * 4 + b / 16) as char);
  }

  lemma SplitOne(x: char)
    requires x as int < 256
    ensures Split([x]) == Group(x, 0 as char, 0 as char)[..2]
  {
  }

  lemma JoinTwo(a: int, b: int)
    requires 0 <= a < 64 && 0 <= b < 64
    ensures Join([a, b]) == Some([(a * 4 + b / 16) as char])
  {
    var s := Ungroup([a, b, 0, 0]);
    assert [a, b] + [0, 0] == [a, b, 0, 0];
    assert s[..1] == [s[0]];
  }

  lemma JoinThree(a: int, b: int, c: int)
    requires 0 <= a < 64 && 0 <= b < 64 && 0 <= c < 64
    ensures Join([a, b, c]) == Some([(a * 4 + b / 16) as char, (b % 16 * 16 + c / 4) as char])
  {
    var s := Ungroup([a, b, c, 0]);
    assert [a, b, c] + [0] == [a, b, c, 0];
    assert s[..2] == [s[0], s[1]];
  }

  lemma SplitLastThree(vs: seq<int>)
    requires Sextets(vs) && |vs| == 3
    ensures SameFront(Split(Join(vs).value), vs)
  {
    var a, b, c := vs[0], vs[1], vs[2];
    assert vs == [a, b, c];
    JoinThree(a, b, c);
    HighBits(a, b);
    MiddleBits(a, b, c);
    SplitTwo((a * 4 + b / 16) as char, (b % 16 * 16 + c / 4) as char);
  }

  lemma SplitTwo(x: char, y: char)
    requires x as int < 256 && y as int < 256
    ensures Split([x, y]) == Group(x, y, 0 as char)[..3]
  {
  }

  lemma {:induction false} SplitJoin(vs: seq<int>)
    requires Sextets(vs) && |vs| % 4 != 1
    ensures SameFront(Split(Join(vs).value), vs)
  {
    if |vs| == 2 {
      SplitLastTwo(vs);
    } else if |vs| == 3 {
      SplitLastThree(vs);
    } else if |vs| >= 4 {
      SplitJoin(vs[4..]);
      GroupUngroup(vs[..4]);
      SplitFront(Ungroup(vs[..4]), Join(vs[4..]).value);
      assert vs == vs[..4] + vs[4..];
    }
  }

  lemma SplitFront(a: string, b: string)
    requires Bytes(a) && Bytes(b) && |a| == 3
    ensures Split(a + b) == Group(a[0], a[1], a[2]) + Split(b)
  {
    assert (a + b)[3..] == b;
  }

  lemma {:induction false} SymbolsAre(vs: seq<int>)
    requires Sextets(vs)
    ensures forall i :: 0 <= i < |vs| ==> Symbols(vs)[i] == Symbol(vs[i])
  {
    if vs != [] {
      SymbolsAre(vs[..|vs| - 1]);
    }
  }

  lemma {:induction false} ValuesAre(t: string)
    requires InAlphabet(t)
    ensures forall i :: 0 <= i < |t| ==> Values(t)[i] == SymbolValue(t[i])
  {
    if t != "" {
      ValuesAre(t[..|t| - 1]);
    }
  }

  /** A text decodes exactly if, line breaks aside, it is in the alphabet and no single symbol is
      left over; and it is then the encoding of what it decodes to, but perhaps for its last symbol. */
  lemma DecodesExactly(t: string)
    ensures var u := WithoutLineBreaks(t);
            && (Decode(t).Some? <==> InAlphabet(u) && |u| % 4 != 1)
            && (Decode(t).Some? ==> Bytes(Decode(t).value) && SameFront(Encode(Decode(t).value), u))
  {
    var u := WithoutLineBreaks(t);
    if Decode(t).Some? {
      var vs := Values(u);
      SplitJoin(vs);
      ValuesAre(u);
      SymbolsAre(Split(Join(vs).value));
      forall i | 0 <= i < |u| - 1
        ensures Encode(Decode(t).value)[i] == u[i]
      {
        AlphabetExactly(vs[i], u[i]);
      }
    }
  }
}
