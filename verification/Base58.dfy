/** Base 58 strings (src/base58.h), with and without checksum. */
module Base58 {
  import opened Arith
  import opened Radix
  import opened Bignum

  datatype Option<T> = None | Some(value: T)

  const ALPHABET: string :=
    "123456789" + ("ABCDEFGHJKLM" + ("NPQRSTUVWXYZ" + ("abcdefghijk" + "mnopqrstuvwxyz")))

  // ---------------------------------------------------------------- characters

  /** The position of a character in a string, as strchr finds it. */
  function IndexIn(s: string, c: char): Option<nat> {
    if s == [] then None
    else if s[0] == c then Some(0)
    else
      match IndexIn(s[1..], c)
      case None => None
      case Some(k) => Some(k + 1)
  }

  function IndexOf(c: char): Option<nat> { IndexIn(ALPHABET, c) }

  predicate Increasing(s: string) { forall i, j :: 0 <= i < j < |s| ==> s[i] < s[j] }

  predicate Steps(s: string) { forall i :: 0 <= i < |s| - 1 ==> s[i] < s[i + 1] }

  lemma {:induction false} StepsIncrease(s: string, i: nat, j: nat)
    requires Steps(s) && i < j < |s|
    ensures s[i] < s[j]
    decreases j
  {
    if i < j - 1 {
      StepsIncrease(s, i, j - 1);
      assert s[j - 1] < s[j - 1 + 1];
    }
  }

  lemma Step1(i: nat)
    requires 0 <= i < 15
    ensures |ALPHABET| == 58 && ALPHABET[i] < ALPHABET[i + 1]
  {
    assert i == 0 || i == 1 || i == 2 || i == 3 || i == 4 || i == 5 || i == 6 || i == 7 || i == 8 ||
      i == 9 || i == 10 || i == 11 || i == 12 || i == 13 || i == 14;
  }

  lemma Step2(i: nat)
    requires 15 <= i < 30
    ensures |ALPHABET| == 58 && ALPHABET[i] < ALPHABET[i + 1]
  {
    assert i == 15 || i == 16 || i == 17 || i == 18 || i == 19 || i == 20 || i == 21 || i == 22 || i == 23 ||
      i == 24 || i == 25 || i == 26 || i == 27 || i == 28 || i == 29;
  }

  lemma Step3(i: nat)
    requires 30 <= i < 45
    ensures |ALPHABET| == 58 && ALPHABET[i] < ALPHABET[i + 1]
  {
    assert i == 30 || i == 31 || i == 32 || i == 33 || i == 34 || i == 35 || i == 36 || i == 37 || i == 38 ||
      i == 39 || i == 40 || i == 41 || i == 42 || i == 43 || i == 44;
  }

  lemma Step4(i: nat)
    requires 45 <= i < 57
    ensures |ALPHABET| == 58 && ALPHABET[i] < ALPHABET[i + 1]
  {
    assert i == 45 || i == 46 || i == 47 || i == 48 || i == 49 || i == 50 || i == 51 || i == 52 || i == 53 ||
      i == 54 || i == 55 || i == 56;
  }

  lemma AlphabetSteps()
    ensures |ALPHABET| == 58 && Steps(ALPHABET)
  {
    hide ALPHABET;
    Step1(0);
    forall i | 0 <= i < 57 ensures ALPHABET[i] < ALPHABET[i + 1] {
      if i < 15 { Step1(i); } else if i < 30 { Step2(i); } else if i < 45 { Step3(i); } else { Step4(i); }
    }
  }

  lemma AlphabetIncreases()
    ensures |ALPHABET| == 58 && Increasing(ALPHABET)
  {
    hide ALPHABET;
    AlphabetSteps();
    forall i, j | 0 <= i < j < |ALPHABET| ensures ALPHABET[i] < ALPHABET[j] {
      StepsIncrease(ALPHABET, i, j);
    }
  }

  lemma {:induction false} IndexInIs(s: string, c: char)
    ensures IndexIn(s, c).Some? <==> c in s
    ensures IndexIn(s, c).Some? ==> IndexIn(s, c).value < |s| && s[IndexIn(s, c).value] == c
  {
    if s != [] && s[0] != c {
      IndexInIs(s[1..], c);
    }
  }

  lemma IndexOfCharacter(i: nat)
    requires i < 58
    ensures |ALPHABET| == 58 && IndexOf(ALPHABET[i]) == Some(i)
  {
    AlphabetIncreases();
    hide ALPHABET;
    IndexInIs(ALPHABET, ALPHABET[i]);
    var k := IndexOf(ALPHABET[i]).value;
    if k != i {
      Apart(ALPHABET, i, k);
    }
  }

  lemma Apart(s: string, i: nat, j: nat)
    requires Increasing(s) && i < |s| && j < |s| && i != j
    ensures s[i] != s[j]
  {
    assert if i < j then s[i] < s[j] else s[j] < s[i];
  }

  predicate InAlphabet(c: char) { c in ALPHABET }

  /** C's white space; the character 0 ends a C string. */
  predicate IsSpace(c: char) { c == ' ' || '\t' <= c <= '\r' }

  /** They are six. */
  lemma SixSpaces(c: char)
    ensures IsSpace(c) <==> c in [' ', '\t', '\n', 0xB as char, 0xC as char, '\r']
  {
  }

  lemma ClassesDiffer(c: char)
    ensures IsSpace(c) ==> !InAlphabet(c) && c != '\0'
    ensures InAlphabet(c) ==> c != '\0'
  {
    if InAlphabet(c) {
      AlphabetAbove(c);
    }
  }

  lemma AlphabetAbove(c: char)
    requires InAlphabet(c)
    ensures c >= '1'
  {
    AlphabetIncreases();
    FirstCharacter();
    hide ALPHABET;
    var i :| 0 <= i < |ALPHABET| && ALPHABET[i] == c;
    assert i > 0 ==> ALPHABET[0] < ALPHABET[i];
  }

  lemma FirstCharacter()
    ensures |ALPHABET| == 58 && ALPHABET[0] == '1'
  {
    assert "123456789"[0] == '1';
  }

  /** Digits as characters, and characters as digits. */
  function Spelled(ds: seq<nat>): string
    requires AreDigits(58, ds)
  {
    AlphabetIncreases();
    seq(|ds|, i requires 0 <= i < |ds| => ALPHABET[ds[i]])
  }

  predicate AllInAlphabet(s: string) { forall i :: 0 <= i < |s| ==> InAlphabet(s[i]) }

  function Read(s: string): (ds: seq<nat>)
    requires AllInAlphabet(s)
  {
    seq(|s|, i requires 0 <= i < |s| => DigitOf(s[i]))
  }

  function DigitOf(c: char): (d: nat)
    requires InAlphabet(c)
    ensures d < 58
  {
    IndexInIs(ALPHABET, c);
    AlphabetIncreases();
    IndexOf(c).value
  }

  lemma ReadSpelled(ds: seq<nat>)
    requires AreDigits(58, ds)
    ensures AllInAlphabet(Spelled(ds)) && Read(Spelled(ds)) == ds
  {
    hide ALPHABET;
    AlphabetIncreases();
    forall i | 0 <= i < |ds| ensures InAlphabet(Spelled(ds)[i]) && DigitOf(Spelled(ds)[i]) == ds[i] {
      IndexOfCharacter(ds[i]);
    }
  }

  lemma SpelledRead(s: string)
    requires AllInAlphabet(s)
    ensures AreDigits(58, Read(s)) && Spelled(Read(s)) == s
  {
    hide ALPHABET;
    AlphabetIncreases();
    forall i | 0 <= i < |s| ensures ALPHABET[DigitOf(s[i])] == s[i] {
      IndexInIs(ALPHABET, s[i]);
    }
  }

  // ---------------------------------------------------------------- whole strings

  function Encoded(b: seq<Byte>): string {
    RewrittenTwice(256, 58, b);
    Spelled(Rewritten(256, 58, b))
  }

  function Cut(s: string): string {
    if s == [] || s[0] == '\0' then [] else [s[0]] + Cut(s[1..])
  }

  function SkipSpace(s: string): string {
    if s != [] && IsSpace(s[0]) then SkipSpace(s[1..]) else s
  }

  /** How long the part in the alphabet is. */
  function Body(s: string): (k: nat)
    ensures k <= |s| && AllInAlphabet(s[..k])
    ensures k < |s| ==> !InAlphabet(s[k])
  {
    if s == [] || !InAlphabet(s[0]) then 0
    else
      var k := Body(s[1..]);
      BodyStep(s, k);
      k + 1
  }

  lemma BodyStep(s: string, k: nat)
    requires s != [] && InAlphabet(s[0]) && k <= |s| - 1 && AllInAlphabet(s[1..][..k])
    ensures AllInAlphabet(s[..k + 1])
  {
    hide ALPHABET;
    var t := s[..k + 1];
    forall i | 0 <= i < |t| ensures InAlphabet(t[i]) {
      if i > 0 {
        assert t[i] == s[1..][..k][i - 1];
      }
    }
  }

  function Decoded(psz: string): Option<seq<Byte>> {
    var s := SkipSpace(Cut(psz));
    var k := Body(s);
    if SkipSpace(s[k..]) != [] then None
    else Some(Restored(s[..k]))
  }

  /** The bytes that a string over the alphabet spells. */
  function Restored(s: string): (b: seq<Byte>)
    requires AllInAlphabet(s)
    ensures b == Rewritten(58, 256, Read(s))
  {
    SpelledRead(s);
    RewrittenTwice(58, 256, Read(s));
    AsBytes(Rewritten(58, 256, Read(s)))
  }

  lemma {:induction false} BodyOfAlphabet(s: string)
    requires AllInAlphabet(s)
    ensures Body(s) == |s| && SkipSpace(s) == s && Cut(s) == s
  {
    if s != [] {
      ClassesDiffer(s[0]);
      BodyOfAlphabet(s[1..]);
    }
  }

  lemma DecodedAlphabet(s: string)
    requires AllInAlphabet(s)
    ensures Decoded(s) == Some(Restored(s))
  {
    BodyOfAlphabet(s);
    assert s[..|s|] == s && s[|s|..] == [];
  }

  /** Decoding what was encoded gives the bytes back, */
  lemma DecodeEncode(b: seq<Byte>)
    ensures Decoded(Encoded(b)) == Some(b)
  {
    RewrittenTwice(256, 58, b);
    ReadSpelled(Rewritten(256, 58, b));
    DecodedAlphabet(Encoded(b));
  }

  /** The string spells the same number to base 58, behind a `1` for each zero
      byte in front. */
  lemma EncodedSpells(b: seq<Byte>)
    ensures var s := Encoded(b);
      && AllInAlphabet(s) && BigEndian(58, Read(s)) == BigEndian(256, b)
      && LeadingZeros(Read(s)) == LeadingZeros(b)
      && forall i :: 0 <= i < |s| ==> s[i] == ALPHABET[Read(s)[i]]
  {
    hide ALPHABET, Rewritten, LeadingZeros, BigEndian;
    RewrittenTwice(256, 58, b);
    RewrittenValue(256, 58, b);
    ReadSpelled(Rewritten(256, 58, b));
  }

  /** and encoding what a string over the alphabet decodes to gives the string. */
  lemma EncodeDecode(s: string)
    requires AllInAlphabet(s)
    ensures Decoded(s).Some? && Encoded(Decoded(s).value) == s
  {
    hide Rewritten;
    DecodedAlphabet(s);
    SpelledRead(s);
    RewrittenTwice(58, 256, Read(s));
  }

  // ---------------------------------------------------------------- white space around

  predicate Blank(s: string) { forall i :: 0 <= i < |s| ==> IsSpace(s[i]) }

  lemma {:induction false} SkipBlank(w: string, s: string)
    requires Blank(w)
    ensures SkipSpace(w + s) == SkipSpace(s)
  {
    if w == [] {
      assert w + s == s;
    } else {
      assert (w + s)[1..] == w[1..] + s;
      SkipBlank(w[1..], s);
    }
  }

  lemma {:induction false} CutBlank(w: string, s: string)
    requires Blank(w)
    ensures Cut(w + s) == w + Cut(s)
  {
    if w == [] {
      assert w + s == s && w + Cut(s) == Cut(s);
    } else {
      ClassesDiffer(w[0]);
      assert (w + s)[1..] == w[1..] + s;
      CutBlank(w[1..], s);
      assert [w[0]] + (w[1..] + Cut(s)) == w + Cut(s);
    }
  }

  /** Blanks behind either follow the string or are cut off. */
  lemma {:induction false} CutBehind(s: string, w: string)
    requires Blank(w)
    ensures Cut(s + w) == Cut(s) || Cut(s + w) == Cut(s) + w
  {
    if s == [] {
      assert s + w == w + [];
      CutBlank(w, []);
    } else if s[0] != '\0' {
      assert (s + w)[1..] == s[1..] + w;
      CutBehind(s[1..], w);
      assert [s[0]] + (Cut(s[1..]) + w) == Cut(s) + w;
    }
  }

  /** The string without blanks at its end matters only. */
  lemma {:induction false} SkipBehind(s: string, w: string)
    requires Blank(w)
    ensures SkipSpace(s) == [] ==> SkipSpace(s + w) == []
    ensures SkipSpace(s) != [] ==> SkipSpace(s + w) == SkipSpace(s) + w
  {
    if s == [] {
      assert s + w == w + [];
      SkipBlank(w, []);
    } else if IsSpace(s[0]) {
      assert (s + w)[1..] == s[1..] + w;
      SkipBehind(s[1..], w);
    }
  }

  lemma {:induction false} BodyBehind(s: string, w: string)
    requires Blank(w)
    ensures Body(s + w) == Body(s)
  {
    if s == [] {
      assert s + w == w;
      if w != [] { ClassesDiffer(w[0]); }
    } else {
      assert (s + w)[1..] == s[1..] + w;
      BodyBehind(s[1..], w);
    }
  }

  /** White space around a string does not change what it decodes to. */
  lemma SpaceAroundDoesNotMatter(before: string, s: string, behind: string)
    requires Blank(before) && Blank(behind)
    ensures Decoded(before + s + behind) == Decoded(s)
  {
    hide Restored;
    assert before + s + behind == before + (s + behind);
    CutBlank(before, s + behind);
    SkipBlank(before, Cut(s + behind));
    CutBehind(s, behind);
    DecodedBehind(Cut(s), behind);
  }

  lemma NothingBehind()
    ensures Body([]) == 0 && SkipSpace([]) == []
  {
  }

  lemma DecodedBehind(s: string, w: string)
    requires Blank(w)
    ensures var a, b := SkipSpace(s), SkipSpace(s + w);
      && a[..Body(a)] == b[..Body(b)]
      && (SkipSpace(a[Body(a)..]) == [] <==> SkipSpace(b[Body(b)..]) == [])
  {
    hide SkipSpace, Body;
    SkipBehind(s, w);
    var a := SkipSpace(s);
    if a == [] {
      NothingBehind();
    } else {
      BodyBehind(a, w);
      var k := Body(a);
      assert (a + w)[..k] == a[..k] && (a + w)[k..] == a[k..] + w;
      SkipBehind(a[k..], w);
    }
  }

  // ---------------------------------------------------------------- with checksum

  /** The first four bytes of a hash. */
  type Checksum = seq<Byte> -> Four
  type Four = s: seq<Byte> | |s| == 4 witness [0, 0, 0, 0]

  function EncodedCheck(hash: Checksum, v: seq<Byte>): string { Encoded(v + hash(v)) }

  function DecodedCheck(hash: Checksum, s: string): Option<seq<Byte>> {
    match Decoded(s)
    case None => None
    case Some(v) =>
      if |v| < 4 then None
      else if hash(v[..|v| - 4]) != v[|v| - 4..] then None
      else Some(v[..|v| - 4])
  }

  /** A string decodes to v exactly if it spells v and its checksum. */
  lemma CheckIsExact(hash: Checksum, s: string, v: seq<Byte>)
    ensures DecodedCheck(hash, s) == Some(v) <==> Decoded(s) == Some(v + hash(v))
  {
    hide Decoded;
    var d := v + hash(v);
    assert d[..|d| - 4] == v && d[|d| - 4..] == hash(v);
    if DecodedCheck(hash, s) == Some(v) {
      var w := Decoded(s).value;
      assert w == w[..|w| - 4] + w[|w| - 4..];
    }
  }

  lemma CheckRoundTrip(hash: Checksum, v: seq<Byte>)
    ensures DecodedCheck(hash, EncodedCheck(hash, v)) == Some(v)
  {
    hide Decoded, Encoded;
    DecodeEncode(v + hash(v));
    CheckIsExact(hash, Encoded(v + hash(v)), v);
  }

  // ---------------------------------------------------------------- the code

  /** Bytes highest first, through a vector lowest first with a zero at its end. */
  lemma PositiveVch(b: seq<Byte>)
    ensures FromVch(Reversed(b) + [0]) == BigEndian(256, b)
  {
    assert Reversed(Reversed(b) + [0]) == [0] + b;
    ZeroInFront(b);
  }

  /** The vector of a number without the byte that only holds its sign. */
  function Unsigned(v: seq<Byte>): seq<Byte> {
    if |v| >= 2 && v[|v| - 1] == 0 && v[|v| - 2] >= 0x80 then v[..|v| - 1] else v
  }

  lemma UnsignedVch(n: nat)
    ensures Reversed(Unsigned(ToVch(n))) == Bytes(n) == Reversed(Digits(256, n))
  {
    hide Bytes, BigEndian, Unsigned;
    BytesValue(n);
    BytesAre(n);
    PositiveMpi(n);
    UnsignedReversed(Bytes(n), ToMpi(n));
    ReversedTwice(Bytes(n));
  }

  lemma PositiveMpi(n: nat)
    ensures var d := Bytes(n); ToMpi(n) == if d != [] && d[0] >= 0x80 then [0] + d else d
  {
    hide Bytes;
    var d := Bytes(n);
    if d != [] {
      assert [d[0]] + d[1..] == d;
    }
  }

  lemma UnsignedReversed(d: seq<Byte>, p: seq<Byte>)
    requires d == [] || d[0] != 0
    requires p == if d != [] && d[0] >= 0x80 then [0] + d else d
    ensures Unsigned(Reversed(p)) == Reversed(d)
  {
    if d != [] && d[0] >= 0x80 {
      assert Reversed(p) == Reversed(d) + [0];
    }
  }

  lemma BytesAre(n: nat)
    ensures Bytes(n) == Reversed(Digits(256, n))
  {
    ValueOfDigits(256, n);
  }

  method EncodeBase58(b: seq<Byte>) returns (str: string)
    ensures str == Encoded(b)
  {
    hide ALPHABET, BigEndian, FromVch, Digits, Spelled, Encoded;
    PositiveVch(b);
    var bn := FromVch(Reversed(b) + [0]);
    ValueOfDigits(58, bn);
    str := DigitsOf(bn);
    str := LeadingOnes(b, str, Digits(58, bn));
  }

  /** The digits of a number, lowest first. */
  method DigitsOf(n: nat) returns (str: string)
    requires AreDigits(58, Digits(58, n))
    ensures str == Spelled(Digits(58, n))
  {
    hide ALPHABET, Digits, Spelled;
    AlphabetIncreases();
    ghost var done: seq<nat> := [];
    str := "";
    SpelledNothing();
    var bn := n;
    assert Digits(58, n) == [] + Digits(58, n);
    while bn > 0
      invariant AreDigits(58, done)
      invariant Digits(58, n) == done + Digits(58, bn) && str == Spelled(done)
      decreases bn
    {
      DigitsAre(bn);
      var rem := bn % 58;
      assert done + ([rem] + Digits(58, bn / 58)) == (done + [rem]) + Digits(58, bn / 58);
      SpelledSnoc(done, rem);
      done := done + [rem];
      str := str + [ALPHABET[rem]];
      bn := bn / 58;
    }
    DigitsAre(0);
    assert done == Digits(58, n);
  }

  lemma SpelledNothing()
    ensures Spelled([]) == []
  {
  }

  lemma SpelledSnoc(ds: seq<nat>, d: nat)
    requires AreDigits(58, ds) && d < 58
    ensures |ALPHABET| == 58 && Spelled(ds + [d]) == Spelled(ds) + [ALPHABET[d]]
  {
    hide ALPHABET;
    AlphabetIncreases();
  }

  lemma DigitsAre(n: nat)
    ensures Digits(58, n) == if n == 0 then [] else [n % 58] + Digits(58, n / 58)
  {
  }

  /** A character for every leading zero, and the whole string turned round. */
  method LeadingOnes(b: seq<Byte>, str0: string, ghost ds: seq<nat>) returns (str: string)
    requires AreDigits(58, ds) && str0 == Spelled(ds) && ds == Digits(58, BigEndian(256, b))
    ensures str == Encoded(b)
  {
    hide ALPHABET, BigEndian, Digits, Spelled, Encoded;
    AlphabetIncreases();
    str := str0;
    assert ds + Zeros(0) == ds;
    var p := 0;
    while p < |b| && b[p] == 0
      invariant 0 <= p <= |b| && LeadingZeros(b) == p + LeadingZeros(b[p..])
      invariant AreDigits(58, ds + Zeros(p)) && str == Spelled(ds + Zeros(p))
    {
      assert b[p..][1..] == b[p + 1..];
      SpelledSnoc(ds + Zeros(p), 0);
      str := str + [ALPHABET[0]];
      p := p + 1;
      assert ds + Zeros(p) == ds + Zeros(p - 1) + [0];
    }
    SpelledReversed(ds, p, b);
    str := Reversed(str);
  }

  lemma SpelledReversed(ds: seq<nat>, p: nat, b: seq<Byte>)
    requires AreDigits(58, ds) && ds == Digits(58, BigEndian(256, b)) && p == LeadingZeros(b)
    ensures AreDigits(58, ds + Zeros(p)) && Reversed(Spelled(ds + Zeros(p))) == Encoded(b)
  {
    hide ALPHABET, BigEndian, Digits, LeadingZeros;
    RewrittenTwice(256, 58, b);
    assert Rewritten(256, 58, b) == Reversed(ds + Zeros(p));
  }

  /** One past the blanks at the front. */
  method PastSpace(psz: string, from: nat) returns (p: nat)
    requires from <= |psz|
    ensures from <= p <= |psz| && psz[p..] == SkipSpace(psz[from..])
  {
    p := from;
    while p < |psz| && IsSpace(psz[p])
      invariant from <= p <= |psz| && SkipSpace(psz[p..]) == SkipSpace(psz[from..])
    {
      assert psz[p..][1..] == psz[p + 1..];
      p := p + 1;
    }
  }

  /** The number spelled by the characters in the alphabet, and where they end. */
  method ReadNumber(s: string) returns (bn: nat, p: nat)
    ensures p == Body(s) && bn == BigEndian(58, Read(s[..p]))
  {
    hide ALPHABET, BigEndian, Digits;
    bn, p := 0, 0;
    EmptyNumber(58);
    assert Read(s[..0]) == [];
    assert s[0..] == s;
    while p < |s| && IndexOf(s[p]).Some?
      invariant 0 <= p <= |s| && Body(s) == p + Body(s[p..])
      invariant AllInAlphabet(s[..p]) && bn == BigEndian(58, Read(s[..p]))
    {
      IndexInIs(ALPHABET, s[p]);
      var digit := IndexOf(s[p]).value;
      assert s[p..][1..] == s[p + 1..];
      ReadSnoc(s, p);
      bn := bn * 58 + digit;
      p := p + 1;
    }
    if p < |s| {
      IndexInIs(ALPHABET, s[p]);
    }
  }

  lemma EmptyNumber(b: nat)
    ensures BigEndian(b, []) == 0
  {
  }

  lemma ReadSnoc(s: string, p: nat)
    requires p < |s| && AllInAlphabet(s[..p]) && InAlphabet(s[p])
    ensures AllInAlphabet(s[..p + 1])
    ensures BigEndian(58, Read(s[..p + 1])) == BigEndian(58, Read(s[..p])) * 58 + DigitOf(s[p])
  {
    hide ALPHABET, BigEndian;
    assert s[..p + 1] == s[..p] + [s[p]];
    assert Read(s[..p + 1]) == Read(s[..p]) + [DigitOf(s[p])];
    BigEndianSnoc(58, Read(s[..p]), DigitOf(s[p]));
  }

  /** How many characters at the front stand for zero. */
  method CountOnes(s: string, ghost k: nat) returns (n: nat)
    requires k == Body(s)
    ensures n == LeadingZeros(Read(s[..k]))
  {
    hide ALPHABET;
    n := 0;
    ghost var ds := Read(s[..k]);
    while n < |s| && s[n] == '1'
      invariant 0 <= n <= k && LeadingZeros(ds) == n + LeadingZeros(ds[n..])
    {
      OneIsZero(s, k, n);
      assert n < k ==> ds[n..][1..] == ds[n + 1..];
      n := n + 1;
    }
    if n < |s| {
      OneIsZero(s, k, n);
    }
  }

  lemma OneIsZero(s: string, k: nat, n: nat)
    requires k == Body(s) && n <= k && n < |s|
    ensures s[n] == '1' ==> n < k
    ensures n < k ==> (Read(s[..k])[n] == 0 <==> s[n] == '1')
  {
    FirstCharacter();
    hide ALPHABET;
    IndexOfCharacter(0);
    assert '1' in ALPHABET;
    if n < k {
      assert s[..k][n] == s[n];
      IndexInIs(ALPHABET, s[n]);
    }
  }

  method DecodeBase58(str: string) returns (ok: bool, vchRet: seq<Byte>)
    ensures ok <==> Decoded(str).Some?
    ensures vchRet == if ok then Decoded(str).value else []
  {
    hide ALPHABET, BigEndian, Unsigned, ToVch, Digits, Body, LeadingZeros;
    var psz := CString(str);
    var p := PastSpace(psz, 0);
    assert psz[0..] == psz;
    var s := psz[p..];
    var bn, k := ReadNumber(s);
    var e := PastSpace(s, k);
    if e < |s| {
      return false, [];
    }
    var vchTmp := Unsigned(ToVch(bn));
    UnsignedVch(bn);
    var nLeadingZeros := CountOnes(s, k);
    vchRet := Padded(nLeadingZeros, vchTmp);
    assert vchRet == Rewritten(58, 256, Read(s[..k]));
    ok := true;
  }

  /** Zeros in front of a vector turned round. */
  function Padded(zeros: nat, v: seq<Byte>): (r: seq<Byte>)
    ensures r == Zeros(zeros) + Reversed(v)
  {
    seq(zeros, _ => 0) + Reversed(v)
  }

  /** What C sees of a string. */
  method CString(str: string) returns (psz: string)
    ensures psz == Cut(str)
  {
    var n := 0;
    assert str[0..] == str;
    while n < |str| && str[n] != '\0'
      invariant 0 <= n <= |str| && Cut(str) == str[..n] + Cut(str[n..])
    {
      assert str[n..][1..] == str[n + 1..];
      assert str[..n] + ([str[n]] + Cut(str[n + 1..])) == str[..n + 1] + Cut(str[n + 1..]);
      n := n + 1;
    }
    psz := str[..n];
  }

  method EncodeBase58Check(hash: Checksum, v: seq<Byte>) returns (str: string)
    ensures str == EncodedCheck(hash, v)
  {
    str := EncodeBase58(v + hash(v));
  }

  method DecodeBase58Check(hash: Checksum, str: string) returns (ok: bool, v: seq<Byte>)
    ensures ok <==> DecodedCheck(hash, str).Some?
    ensures v == if ok then DecodedCheck(hash, str).value else []
  {
    hide Decoded;
    ok, v := DecodeBase58(str);
    if !ok {
      return false, [];
    }
    if |v| < 4 {
      return false, [];
    }
    if hash(v[..|v| - 4]) != v[|v| - 4..] {
      return false, [];
    }
    v := v[..|v| - 4];
  }

  class Base58Data {
    const hash: Checksum
    var nVersion: Byte
    var vchData: seq<Byte>

    constructor (hash: Checksum)
      ensures this.hash == hash && nVersion == 0 && vchData == []
    {
      this.hash, nVersion, vchData := hash, 0, [];
    }

    /** Succeeds exactly on strings that decode to at least one byte, the version. */
    method SetString(str: string) returns (ok: bool)
      modifies this
      ensures ok <==> DecodedCheck(hash, str).Some? && DecodedCheck(hash, str).value != []
      ensures if ok then [nVersion] + vchData == DecodedCheck(hash, str).value else nVersion == 0 && vchData == []
    {
      hide DecodedCheck;
      var decoded, vchTemp := DecodeBase58Check(hash, str);
      if |vchTemp| == 0 {
        vchData := [];
        nVersion := 0;
        return false;
      }
      nVersion := vchTemp[0];
      vchData := vchTemp[1..];
      assert [vchTemp[0]] + vchTemp[1..] == vchTemp;
      return true;
    }

    method ToString() returns (str: string)
      ensures str == EncodedCheck(hash, [nVersion] + vchData)
    {
      str := EncodeBase58Check(hash, [nVersion] + vchData);
    }
  }

  /** Setting an object from another's string makes it equal. */
  method SetFromString(a: Base58Data, b: Base58Data) returns (ok: bool)
    requires a != b && a.hash == b.hash
    modifies b
    ensures ok && b.nVersion == a.nVersion && b.vchData == a.vchData
  {
    hide DecodedCheck, EncodedCheck;
    var str := a.ToString();
    CheckRoundTrip(a.hash, [a.nVersion] + a.vchData);
    ok := b.SetString(str);
    assert ([b.nVersion] + b.vchData)[1..] == b.vchData && ([a.nVersion] + a.vchData)[1..] == a.vchData;
    assert ([b.nVersion] + b.vchData)[0] == b.nVersion;
  }
}
