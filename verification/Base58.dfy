/** Base 58 text of byte strings (src/base58.cpp). */
module Base58 {
  import opened Common
  import opened Radix

  predicate IsSpace(c: char) {
    c == ' ' || c == '\t' || c == '\n' || c == '\U{0B}' || c == '\U{0C}' || c == '\r'
  }

  /** The character at a position of the alphabet, which is six runs of consecutive characters. */
  function Letter(d: nat): char
    requires d < 58
  {
    if d < 9 then ('1' as int + d) as char
    else if d < 17 then ('A' as int + d - 9) as char
    else if d < 22 then ('J' as int + d - 17) as char
    else if d < 33 then ('P' as int + d - 22) as char
    else if d < 44 then ('a' as int + d - 33) as char
    else ('m' as int + d - 44) as char
  }

  predicate IsLetter(c: char) {
    exists d: nat | d < 58 :: Letter(d) == c
  }

  /** strchr in the alphabet: the first position of the character at or after `from`. */
  function Find(c: char, from: nat): (i: Option<nat>)
    requires from <= 58
    ensures i.Some? ==> from <= i.value < 58 && Letter(i.value) == c
    ensures i.None? ==> forall d: nat :: from <= d < 58 ==> Letter(d) != c
    decreases 58 - from
  {
    if from == 58 then None else if Letter(from) == c then Some(from) else Find(c, from + 1)
  }

  /** The alphabet is the digits and the letters without 0, I, O and l, each at one position. */
  lemma Alphabet(c: char)
    ensures IsLetter(c) <==>
      ('0' <= c <= '9' || 'A' <= c <= 'Z' || 'a' <= c <= 'z') && c != '0' && c != 'I' && c != 'O' && c != 'l'
    ensures Find(c, 0).Some? <==> IsLetter(c)
    ensures forall d: nat, e: nat :: d < e < 58 ==> Letter(d) != Letter(e)
    ensures IsSpace(c) ==> !IsLetter(c)
  {
    var x := c as int;
    var d := if '1' <= c <= '9' then x - '1' as int
             else if 'A' <= c <= 'H' then x - 'A' as int + 9
             else if 'J' <= c <= 'N' then x - 'J' as int + 17
             else if 'P' <= c <= 'Z' then x - 'P' as int + 22
             else if 'a' <= c <= 'k' then x - 'a' as int + 33
             else if 'm' <= c <= 'z' then x - 'm' as int + 44
             else 0;
    assert d >= 0 && d < 58 && (Letter(d) == c || !IsLetter(c));
  }

  function Index(c: char): (d: nat)
    requires IsLetter(c)
    ensures d < 58 && Letter(d) == c
  {
    Alphabet(c);
    Find(c, 0).value
  }

  predicate IsCode(s: string) {
    forall i :: 0 <= i < |s| ==> IsLetter(s[i])
  }

  function Indexes(s: string): (ds: seq<nat>)
    requires IsCode(s)
    ensures |ds| == |s| && IsDigits(58, ds)
  {
    seq(|s|, i requires 0 <= i < |s| => Index(s[i]))
  }

  function Letters(ds: seq<nat>): (s: string)
    requires IsDigits(58, ds)
    ensures |s| == |ds| && forall i :: 0 <= i < |s| ==> s[i] == Letter(ds[i])
  {
    seq(|ds|, i requires 0 <= i < |ds| => Letter(ds[i]))
  }

  /** How many zeroes a digit string starts with. */
  function Leading(ds: seq<nat>): (z: nat)
    ensures z <= |ds| && (forall i :: 0 <= i < z ==> ds[i] == 0) && (z < |ds| ==> ds[z] != 0)
  {
    if ds == [] || ds[0] != 0 then 0 else 1 + Leading(ds[1..])
  }

  function Zeroes(n: nat): (ds: seq<nat>)
    ensures |ds| == n && forall i :: 0 <= i < n ==> ds[i] == 0
  {
    seq(n, _ => 0)
  }

  /** The digits of a number in one radix, written in another: a zero for each leading zero, then the number. */
  function Rebase(r: nat, q: nat, ds: seq<nat>): seq<nat>
    requires q >= 2
  {
    Zeroes(Leading(ds)) + Digits(q, Value(r, ds))
  }

  function Encode(bytes: seq<nat>): string
    requires IsDigits(256, bytes)
  {
    DigitsValue(58, Value(256, bytes));
    Letters(Rebase(256, 58, bytes))
  }

  function TrimLeft(s: string): string {
    if s != [] && IsSpace(s[0]) then TrimLeft(s[1..]) else s
  }

  function TrimRight(s: string): string {
    if s != [] && IsSpace(s[|s| - 1]) then TrimRight(s[..|s| - 1]) else s
  }

  /** The bytes of a text, spaces around it ignored; nothing if it holds anything but alphabet characters. */
  function Decode(s: string): Option<seq<nat>> {
    var code := TrimRight(TrimLeft(s));
    if IsCode(code) then Some(Rebase(58, 256, Indexes(code))) else None
  }

  lemma {:induction false} LeadingIs(ds: seq<nat>, z: nat)
    requires z <= |ds| && (forall i :: 0 <= i < z ==> ds[i] == 0) && (z < |ds| ==> ds[z] != 0)
    ensures Leading(ds) == z
  {
    if z > 0 { LeadingIs(ds[1..], z - 1); }
  }

  lemma RebaseParts(q: nat, z: nat, x: nat)
    requires q >= 2
    ensures var there := Zeroes(z) + Digits(q, x);
      IsDigits(q, there) && Leading(there) == z && Value(q, there) == x
  {
    var digits := Digits(q, x);
    var there := Zeroes(z) + digits;
    DigitsValue(q, x);
    LeadingIs(there, z);
    ValueZeroes(q, there, z);
    assert there[z..] == digits;
  }

  /** Writing a number in the radix it is in changes nothing. */
  lemma RebaseSame(r: nat, ds: seq<nat>)
    requires r >= 2 && IsDigits(r, ds)
    ensures Rebase(r, r, ds) == ds
  {
    var z := Leading(ds);
    ValueZeroes(r, ds, z);
    ValueDigits(r, ds[z..]);
    assert ds == Zeroes(z) + ds[z..];
  }

  /** Changing the radix and back is the identity. */
  lemma RebaseBack(r: nat, q: nat, ds: seq<nat>)
    requires r >= 2 && q >= 2 && IsDigits(r, ds)
    ensures IsDigits(q, Rebase(r, q, ds)) && Rebase(q, r, Rebase(r, q, ds)) == ds
  {
    RebaseParts(q, Leading(ds), Value(r, ds));
    RebaseSame(r, ds);
  }

  lemma LettersIndexes(s: string)
    requires IsCode(s)
    ensures Letters(Indexes(s)) == s
  {
  }

  lemma IndexesLetters(ds: seq<nat>)
    requires IsDigits(58, ds)
    ensures IsCode(Letters(ds)) && Indexes(Letters(ds)) == ds
  {
    var s := Letters(ds);
    forall i | 0 <= i < |s| ensures IsLetter(s[i]) && Index(s[i]) == ds[i] {
      Alphabet(s[i]);
    }
  }

  /** A text of alphabet characters has nothing to trim. */
  lemma TrimCode(s: string)
    requires IsCode(s)
    ensures TrimRight(TrimLeft(s)) == s
  {
    if s != [] {
      Alphabet(s[0]);
      Alphabet(s[|s| - 1]);
    }
  }

  /** Decoding undoes encoding, for every byte string. */
  lemma DecodeEncode(bytes: seq<nat>)
    requires IsDigits(256, bytes)
    ensures IsCode(Encode(bytes)) && Decode(Encode(bytes)) == Some(bytes)
  {
    RebaseBack(256, 58, bytes);
    IndexesLetters(Rebase(256, 58, bytes));
    TrimCode(Encode(bytes));
  }

  /** Encoding undoes decoding, for every text of alphabet characters. */
  lemma EncodeDecode(s: string)
    requires IsCode(s)
    ensures Decode(s).Some? && IsDigits(256, Decode(s).value) && Encode(Decode(s).value) == s
  {
    TrimCode(s);
    RebaseBack(58, 256, Indexes(s));
    LettersIndexes(s);
  }

  /** The spaces around a text, its first and last other character aside, are what is trimmed. */
  lemma {:induction false} TrimLeftIs(s: string, p: nat)
    requires p <= |s| && (forall i :: 0 <= i < p ==> IsSpace(s[i])) && (p < |s| ==> !IsSpace(s[p]))
    ensures TrimLeft(s) == s[p..]
  {
    if p > 0 {
      TrimLeftIs(s[1..], p - 1);
      assert s[1..][p - 1..] == s[p..];
    }
  }

  lemma {:induction false} TrimRightIs(s: string, p: nat)
    requires p <= |s| && (forall i :: p <= i < |s| ==> IsSpace(s[i])) && (p > 0 ==> !IsSpace(s[p - 1]))
    ensures TrimRight(s) == s[..p]
    decreases |s|
  {
    if p < |s| {
      TrimRightIs(s[..|s| - 1], p);
      assert s[..|s| - 1][..p] == s[..p];
    }
  }

  /** Trimming stops at any character that is no space. */
  lemma {:induction false} TrimRightKeeps(s: string, k: nat)
    requires k < |s| && !IsSpace(s[k])
    ensures k < |TrimRight(s)| <= |s| && TrimRight(s) == s[..|TrimRight(s)|]
    decreases |s|
  {
    if IsSpace(s[|s| - 1]) { TrimRightKeeps(s[..|s| - 1], k); }
  }

  /** One more digit is one multiplication and one addition. */
  lemma ValueNext(r: nat, ds: seq<nat>, k: nat)
    requires k < |ds|
    ensures Value(r, ds[..k + 1]) == Times(Value(r, ds[..k]), r) + ds[k]
  {
    assert ds[..k + 1][..k] == ds[..k];
    TimesIs(Value(r, ds[..k]), r);
  }

  lemma Double(r: nat, n: nat, v: nat)
    requires Pow(r, n) == v
    ensures Pow(r, 2 * n) == v * v
  {
    PowAdd(r, n, n);
  }

  lemma DoubleNext(r: nat, n: nat, v: nat)
    requires Pow(r, n) == v
    ensures Pow(r, 2 * n + 1) == r * (v * v)
  {
    PowAdd(r, n, n);
  }

  /** 19 bytes fit in 26 characters. */
  lemma EncodeRatio()
    ensures Pow(256, 19) <= Pow(58, 26)
  {
    Double(256, 1, 256);
    Double(256, 2, 65536);
    DoubleNext(256, 4, 4294967296);
    DoubleNext(256, 9, 4722366482869645213696);
    DoubleNext(58, 1, 58);
    Double(58, 3, 195112);
    DoubleNext(58, 6, 38068692544);
    Double(58, 13, 84055070416556869132288);
  }

  /** 71 characters fit in 52 bytes. */
  lemma DecodeRatio()
    ensures Pow(58, 71) <= Pow(256, 52)
  {
    Double(58, 1, 58);
    Double(58, 2, 3364);
    Double(58, 4, 11316496);
    DoubleNext(58, 8, 128063081718016);
    DoubleNext(58, 17, 951208868148684143308060622848);
    DoubleNext(58, 35, 52478302028992644968172978478148648556151605660894866578604032);
    DoubleNext(256, 1, 256);
    Double(256, 3, 16777216);
    DoubleNext(256, 6, 281474976710656);
    Double(256, 13, 20282409603651670423947251286016);
    Double(256, 26, 411376139330301510538742295639337626245683966408394965837152256);
  }

  /** The buffer of EncodeBase58 is big enough. */
  lemma EncodeFits(n: nat)
    ensures Pow(256, n) <= Pow(58, n * 138 / 100 + 1)
  {
    EncodeRatio();
    DigitsSuffice(256, 19, 58, 26, n, n * 138 / 100 + 1);
  }

  /** The buffer of DecodeBase58 is big enough. */
  lemma DecodeFits(n: nat)
    ensures Pow(58, n) <= Pow(256, n * 733 / 1000 + 1)
  {
    DecodeRatio();
    DigitsSuffice(58, 71, 256, 52, n, n * 733 / 1000 + 1);
  }

  /** The shortest digits of a buffer's number. */
  method Strip(b: array<nat>, r: nat, length: nat) returns (digits: seq<nat>)
    requires r >= 2 && IsDigits(r, b[..]) && length <= b.Length
    requires forall j :: 0 <= j < b.Length - length ==> b[j] == 0
    ensures digits == Digits(r, Value(r, b[..]))
  {
    var it := b.Length - length;
    while it < b.Length && b[it] == 0
      invariant 0 <= it <= b.Length && forall j :: 0 <= j < it ==> b[j] == 0
    {
      it := it + 1;
    }
    ValueZeroes(r, b[..], it);
    digits := b[it..];
    assert b[..][it..] == digits;
    ValueDigits(r, digits);
  }

  /** A buffer holds the number a digit string denotes, in its last `length` digits. */
  ghost predicate Holds(b: array<nat>, q: nat, length: nat, r: nat, ds: seq<nat>)
    reads b
  {
    && length <= b.Length && IsDigits(q, b[..])
    && (forall j :: 0 <= j < b.Length - length ==> b[j] == 0)
    && Value(q, b[..]) == Value(r, ds)
  }

  /**
   * One turn of the digit loop of both functions. The carry is used up because the digits so far and the one to come
   * fit in the buffer.
   */
  method Push(b: array<nat>, q: nat, length: nat, r: nat, ghost ds: seq<nat>, d: nat) returns (length': nat)
    requires r >= 2 && q >= 2 && Holds(b, q, length, r, ds) && IsDigits(r, ds) && d < r
    requires Pow(r, |ds| + 1) <= Pow(q, b.Length)
    modifies b
    ensures Holds(b, q, length', r, ds + [d])
  {
    ghost var ds' := ds + [d];
    ValueNext(r, ds', |ds|);
    assert ds'[..|ds|] == ds && ds'[..|ds| + 1] == ds';
    ValueBound(r, ds');
    length' := MulAdd(b, q, r, d, length);
  }

  method NewBuffer(size: nat, ghost q: nat, ghost r: nat) returns (b: array<nat>)
    requires q >= 2
    ensures fresh(b) && b.Length == size && Holds(b, q, 0, r, [])
  {
    b := new nat[size](_ => 0);
    ValueZeroes(q, b[..], size);
  }

  /** The digit loop of EncodeBase58. */
  method ToDigits(rest: seq<nat>) returns (digits: seq<nat>)
    requires IsDigits(256, rest)
    ensures digits == Digits(58, Value(256, rest))
  {
    var size := |rest| * 138 / 100 + 1;
    EncodeFits(|rest|);
    var b := NewBuffer(size, 58, 256);
    var length := 0;
    for k := 0 to |rest|
      invariant Holds(b, 58, length, 256, rest[..k])
    {
      PowExponent(256, k + 1, |rest|);
      length := Push(b, 58, length, 256, rest[..k], rest[k]);
      assert rest[..k] + [rest[k]] == rest[..k + 1];
    }
    assert rest[..|rest|] == rest;
    digits := Strip(b, 58, length);
  }

  function Ones(n: nat): (s: string)
    ensures |s| == n && forall i :: 0 <= i < n ==> s[i] == '1'
  {
    seq(n, _ => '1')
  }

  /** Ones and the number without its leading zeroes make the whole text. */
  lemma Written(bytes: seq<nat>, zeroes: nat)
    requires IsDigits(256, bytes) && zeroes <= |bytes|
    requires forall i :: 0 <= i < zeroes ==> bytes[i] == 0
    requires zeroes < |bytes| ==> bytes[zeroes] != 0
    ensures var digits := Digits(58, Value(256, bytes[zeroes..]));
      IsDigits(58, digits) && Encode(bytes) == Ones(zeroes) + Letters(digits)
  {
    LeadingIs(bytes, zeroes);
    ValueZeroes(256, bytes, zeroes);
    DigitsValue(58, Value(256, bytes));
  }

  method EncodeBase58(bytes: seq<nat>) returns (str: string)
    requires IsDigits(256, bytes)
    ensures str == Encode(bytes)
  {
    var zeroes := 0;
    while zeroes < |bytes| && bytes[zeroes] == 0
      invariant 0 <= zeroes <= |bytes| && forall i :: 0 <= i < zeroes ==> bytes[i] == 0
    {
      zeroes := zeroes + 1;
    }
    var digits := ToDigits(bytes[zeroes..]);
    Written(bytes, zeroes);
    str := Ones(zeroes) + Letters(digits);
  }

  method SkipSpaces(s: string, from: nat) returns (p: nat)
    requires from <= |s|
    ensures from <= p <= |s| && (forall i :: from <= i < p ==> IsSpace(s[i])) && (p < |s| ==> !IsSpace(s[p]))
  {
    p := from;
    while p < |s| && IsSpace(s[p])
      invariant from <= p <= |s| && forall i :: from <= i < p ==> IsSpace(s[i])
    {
      p := p + 1;
    }
  }

  /** A stretch of a text is the letters of digits. */
  ghost predicate Spells(s: string, from: nat, end: nat, ds: seq<nat>) {
    && from <= end <= |s| && |ds| == end - from && IsDigits(58, ds)
    && forall i :: from <= i < end ==> s[i] == Letter(ds[i - from])
  }

  /** Accumulates characters up to a space or the end; `ok` is whether all of them are in the alphabet. */
  method ReadDigits(s: string, from: nat, b: array<nat>) returns (ok: bool, end: nat, length: nat, ghost ds: seq<nat>)
    requires from <= |s| && Holds(b, 256, 0, 58, []) && Pow(58, |s| - from) <= Pow(256, b.Length)
    modifies b
    ensures from <= end <= |s| && (!ok ==> end < |s| && !IsSpace(s[end]) && !IsLetter(s[end]))
    ensures ok ==> Spells(s, from, end, ds) && Holds(b, 256, length, 58, ds) && (end < |s| ==> IsSpace(s[end]))
  {
    end, length, ds := from, 0, [];
    while end < |s| && !IsSpace(s[end])
      invariant Spells(s, from, end, ds) && Holds(b, 256, length, 58, ds)
    {
      Alphabet(s[end]);
      var found := Find(s[end], 0);
      if found.None? {
        return false, end, length, ds;
      }
      PowExponent(58, |ds| + 1, |s| - from);
      length := Push(b, 256, length, 58, ds, found.value);
      ds := ds + [found.value];
      end := end + 1;
    }
    ok := true;
  }

  /** DecodeBase58, of a C string. */
  method DecodeBase58(psz: string) returns (bytes: Option<seq<nat>>)
    ensures bytes == Decode(psz)
  {
    var p := SkipSpaces(psz, 0);
    TrimLeftIs(psz, p);
    var s := psz[p..];
    var zeroes := 0;
    while zeroes < |s| && s[zeroes] == '1'
      invariant 0 <= zeroes <= |s| && forall i :: 0 <= i < zeroes ==> s[i] == '1'
    {
      zeroes := zeroes + 1;
    }
    DecodeFits(|s| - zeroes);
    var b := NewBuffer((|s| - zeroes) * 733 / 1000 + 1, 256, 58);
    var ok, end, length, ds := ReadDigits(s, zeroes, b);
    if !ok {
      Rejected(s, end, end);
      return None;
    }
    var tail := SkipSpaces(s, end);
    if tail < |s| {
      Alphabet(s[end]);
      Rejected(s, end, tail);
      return None;
    }
    Read(s, zeroes, end, ds);
    var digits := Strip(b, 256, length);
    bytes := Some(Zeroes(zeroes) + digits);
  }

  /** A character outside the alphabet, with another character that is no space at it or after it. */
  lemma Rejected(s: string, bad: nat, k: nat)
    requires bad <= k < |s| && !IsLetter(s[bad]) && !IsSpace(s[k])
    ensures !IsCode(TrimRight(s))
  {
    TrimRightKeeps(s, k);
    assert TrimRight(s)[bad] == s[bad];
  }

  /** A text of ones, then digits, then spaces. */
  lemma Read(s: string, zeroes: nat, end: nat, ds: seq<nat>)
    requires Spells(s, zeroes, end, ds)
    requires forall i :: 0 <= i < zeroes ==> s[i] == '1'
    requires zeroes < |s| ==> s[zeroes] != '1'
    requires forall i :: end <= i < |s| ==> IsSpace(s[i])
    ensures IsCode(TrimRight(s))
    ensures Rebase(58, 256, Indexes(TrimRight(s))) == Zeroes(zeroes) + Digits(256, Value(58, ds))
  {
    var all := Zeroes(zeroes) + ds;
    IndexesLetters(all);
    assert Letters(all) == s[..end];
    if end > 0 { Alphabet(s[..end][end - 1]); }
    TrimRightIs(s, end);
    LeadingIs(all, zeroes);
    ValueZeroes(58, all, zeroes);
    assert all[zeroes..] == ds;
  }
}
