/**
 * `read_user_cstr` of the ch6 and ch8 kernels: a path argument is read
 * byte by byte from user memory until its NUL, at most `USER_CSTR_MAX`
 * bytes, and accepted only if the bytes before the NUL are well-formed
 * UTF-8 (what `String::from_utf8` accepts).
 *
 * User memory is the map from the addresses the user address space lets
 * the kernel read to the bytes stored there; an address outside the map is
 * one `translate` refuses.
 */
module ChapterCstr {
  import opened Words
  import opened Wrappers

  /** `USER_CSTR_MAX`: the most bytes read while looking for the NUL. */
  const USER_CSTR_MAX: nat := 4096

  /** `ptr as usize + i`, wrapping at 2^64 as release builds do. */
  function Addr(ptr: usize, i: nat): usize {
    (ptr + i) % USIZE_LIMIT
  }

  /** A continuation byte 80..BF. */
  predicate Cont(b: u8) {
    0x80 <= b <= 0xBF
  }

  /**
   * The length of the well-formed UTF-8 byte sequence that starts s, or 0
   * when s does not start with one. The cases are the rows of Table 3-7 of
   * the Unicode Standard (chapter 3): no overlong forms, no surrogates,
   * nothing above U+10FFFF.
   */
  function CharLen(s: seq<u8>): (n: nat)
    ensures n <= 4 && n <= |s|
    ensures |s| > 0 && s[0] < 0x80 ==> n == 1
  {
    if |s| == 0 then 0
    else
      var b := s[0];
      if b <= 0x7F then 1
      else if 0xC2 <= b <= 0xDF then
        if |s| >= 2 && Cont(s[1]) then 2 else 0
      else if b == 0xE0 then
        if |s| >= 3 && 0xA0 <= s[1] <= 0xBF && Cont(s[2]) then 3 else 0
      else if 0xE1 <= b <= 0xEC || 0xEE <= b <= 0xEF then
        if |s| >= 3 && Cont(s[1]) && Cont(s[2]) then 3 else 0
      else if b == 0xED then
        if |s| >= 3 && 0x80 <= s[1] <= 0x9F && Cont(s[2]) then 3 else 0
      else if b == 0xF0 then
        if |s| >= 4 && 0x90 <= s[1] <= 0xBF && Cont(s[2]) && Cont(s[3]) then 4 else 0
      else if 0xF1 <= b <= 0xF3 then
        if |s| >= 4 && Cont(s[1]) && Cont(s[2]) && Cont(s[3]) then 4 else 0
      else if b == 0xF4 then
        if |s| >= 4 && 0x80 <= s[1] <= 0x8F && Cont(s[2]) && Cont(s[3]) then 4 else 0
      else 0
  }

  /** s is a sequence of well-formed UTF-8 characters. */
  predicate ValidUtf8(s: seq<u8>)
    decreases |s|
  {
    |s| == 0 || (CharLen(s) > 0 && ValidUtf8(s[CharLen(s)..]))
  }

  /** A Unicode scalar value: a code point that is not a surrogate. */
  predicate Scalar(cp: nat) {
    cp <= 0x10FFFF && !(0xD800 <= cp <= 0xDFFF)
  }

  /** The UTF-8 encoding of one scalar value (section 3.9 of the Unicode Standard): six bits per trailing byte. */
  function Encode(cp: nat): (s: seq<u8>)
    requires Scalar(cp)
    ensures 1 <= |s| <= 4
  {
    var c1 := cp / 64;
    var c2 := c1 / 64;
    if cp < 0x80 then [cp]
    else if cp < 0x800 then [0xC0 + c1, 0x80 + cp % 64]
    else if cp < 0x10000 then [0xE0 + c2, 0x80 + c1 % 64, 0x80 + cp % 64]
    else [0xF0 + c2 / 64, 0x80 + c2 % 64, 0x80 + c1 % 64, 0x80 + cp % 64]
  }

  /** The scalar value of the character that starts s. */
  function Decode(s: seq<u8>): (cp: nat)
    requires CharLen(s) > 0
  {
    var n := CharLen(s);
    if n == 1 then s[0]
    else if n == 2 then 64 * (s[0] as int - 0xC0) + (s[1] as int - 0x80)
    else if n == 3 then 64 * (64 * (s[0] as int - 0xE0) + (s[1] as int - 0x80)) + (s[2] as int - 0x80)
    else 64 * (64 * (64 * (s[0] as int - 0xF0) + (s[1] as int - 0x80)) + (s[2] as int - 0x80)) + (s[3] as int - 0x80)
  }

  /** Splitting off six bits and putting them back. */
  lemma Split64(x: nat)
    ensures x == 64 * (x / 64) + x % 64 && x % 64 < 64
  {
  }

  /** Six bits put below a number come off again. */
  lemma Join64(hi: nat, lo: nat)
    requires lo < 64
    ensures (64 * hi + lo) / 64 == hi && (64 * hi + lo) % 64 == lo
  {
  }

  /** Every scalar value encodes to exactly one well-formed character, which decodes back to it. */
  lemma EncodeDecode(cp: nat)
    requires Scalar(cp)
    ensures CharLen(Encode(cp)) == |Encode(cp)|
    ensures Decode(Encode(cp)) == cp
    ensures ValidUtf8(Encode(cp))
  {
    var s := Encode(cp);
    var c1 := cp / 64;
    var c2 := c1 / 64;
    Split64(cp);
    Split64(c1);
    Split64(c2);
    if cp >= 0x10000 {
      assert c2 / 64 <= 4;
      assert s[0] == 0xF0 ==> s[1] >= 0x90;
      assert s[0] == 0xF4 ==> s[1] <= 0x8F;
    } else if cp >= 0x800 {
      assert s[0] == 0xE0 ==> s[1] >= 0xA0;
      assert s[0] == 0xED ==> s[1] <= 0x9F;
    }
    assert CharLen(s) == |s|;
    assert s[CharLen(s)..] == [];
  }

  /** Every well-formed character is the encoding of the scalar value it decodes to: the table admits nothing else. */
  lemma DecodeEncode(s: seq<u8>)
    requires CharLen(s) > 0
    ensures Scalar(Decode(s)) && Encode(Decode(s)) == s[..CharLen(s)]
  {
    var n := CharLen(s);
    if n == 2 {
      DecodeEncode2(s);
    } else if n == 3 {
      DecodeEncode3(s);
    } else if n == 4 {
      DecodeEncode4(s);
    }
  }

  /** The two-byte rows of the table. */
  lemma DecodeEncode2(s: seq<u8>)
    requires CharLen(s) == 2
    ensures Scalar(Decode(s)) && Encode(Decode(s)) == s[..2]
  {
    Join64(s[0] - 0xC0, s[1] - 0x80);
  }

  /** The three-byte rows of the table. */
  lemma DecodeEncode3(s: seq<u8>)
    requires CharLen(s) == 3
    ensures Scalar(Decode(s)) && Encode(Decode(s)) == s[..3]
  {
    var c1: nat := 64 * (s[0] as int - 0xE0) + (s[1] as int - 0x80);
    Join64(c1, s[2] - 0x80);
    Join64(s[0] - 0xE0, s[1] - 0x80);
    assert Decode(s) == 64 * c1 + (s[2] - 0x80);
  }

  /** The four-byte rows of the table. */
  lemma DecodeEncode4(s: seq<u8>)
    requires CharLen(s) == 4
    ensures Scalar(Decode(s)) && Encode(Decode(s)) == s[..4]
  {
    var c2: nat := 64 * (s[0] as int - 0xF0) + (s[1] as int - 0x80);
    var c1: nat := 64 * c2 + (s[2] as int - 0x80);
    Join64(c1, s[3] - 0x80);
    Join64(c2, s[2] - 0x80);
    Join64(s[0] - 0xF0, s[1] - 0x80);
    assert Decode(s) == 64 * c1 + (s[3] - 0x80);
  }

  /** A well-formed character followed by anything is still read as the same character. */
  lemma CharLenPrefix(a: seq<u8>, b: seq<u8>)
    requires CharLen(a) > 0
    ensures CharLen(a + b) == CharLen(a)
  {
    assert (a + b)[0] == a[0];
    if |a| >= 2 {
      assert (a + b)[1] == a[1];
    }
    if |a| >= 3 {
      assert (a + b)[2] == a[2];
    }
    if |a| >= 4 {
      assert (a + b)[3] == a[3];
    }
  }

  /** A character of length n followed by well-formed bytes is well-formed. */
  lemma ValidStep(s: seq<u8>, n: nat)
    requires 0 < n <= |s| && CharLen(s) == n && ValidUtf8(s[n..])
    ensures ValidUtf8(s)
  {
  }

  /** Well-formed sequences stay well-formed when joined. */
  lemma {:induction false} ValidConcat(a: seq<u8>, b: seq<u8>)
    requires ValidUtf8(a) && ValidUtf8(b)
    ensures ValidUtf8(a + b)
    decreases |a|
  {
    if |a| > 0 {
      var n := CharLen(a);
      var rest := a[n..];
      assert ValidUtf8(rest);
      CharLenPrefix(a, b);
      ValidConcat(rest, b);
      assert (a + b)[n..] == rest + b;
      ValidStep(a + b, n);
    } else {
      assert a + b == b;
    }
  }

  /** Plain ASCII, which every path of the user programs is, is well-formed. */
  lemma {:induction false} AsciiValid(s: seq<u8>)
    requires forall i :: 0 <= i < |s| ==> s[i] < 0x80
    ensures ValidUtf8(s)
    decreases |s|
  {
    if |s| > 0 {
      AsciiValid(s[1..]);
    }
  }

  /** s is the C string at ptr: its bytes are readable, none is NUL, and a readable NUL follows them. */
  predicate CString(mem: map<usize, u8>, ptr: usize, s: seq<u8>) {
    && (forall j :: 0 <= j < |s| ==> Addr(ptr, j) in mem && mem[Addr(ptr, j)] == s[j] && s[j] != 0)
    && Addr(ptr, |s|) in mem && mem[Addr(ptr, |s|)] == 0
  }

  /** The C string at an address is unique. */
  lemma CStringUnique(mem: map<usize, u8>, ptr: usize, s: seq<u8>, t: seq<u8>)
    requires CString(mem, ptr, s) && CString(mem, ptr, t)
    ensures s == t
  {
  }

  /**
   * `read_user_cstr`: the string is returned exactly when the C string at
   * ptr is shorter than `USER_CSTR_MAX` and well-formed UTF-8. An
   * unreadable byte before the NUL, no NUL among the first 4096 bytes, or
   * malformed UTF-8 gives None.
   */
  method ReadUserCstr(mem: map<usize, u8>, ptr: usize) returns (r: Option<seq<u8>>)
    ensures r.Some? ==> CString(mem, ptr, r.value) && |r.value| < USER_CSTR_MAX && ValidUtf8(r.value)
    ensures r.None? ==> forall s :: CString(mem, ptr, s) && |s| < USER_CSTR_MAX ==> !ValidUtf8(s)
  {
    var buf: seq<u8> := [];
    var i := 0;
    while i < USER_CSTR_MAX
      invariant i <= USER_CSTR_MAX && |buf| == i
      invariant forall j :: 0 <= j < i ==> Addr(ptr, j) in mem && mem[Addr(ptr, j)] == buf[j] && buf[j] != 0
    {
      var a := Addr(ptr, i);
      if a !in mem {
        NoneUnmapped(mem, ptr, buf);
        return None;
      }
      var b := mem[a];
      if b == 0 {
        if ValidUtf8(buf) {
          return Some(buf);
        }
        forall s | CString(mem, ptr, s) && |s| < USER_CSTR_MAX
          ensures !ValidUtf8(s)
        {
          CStringUnique(mem, ptr, s, buf);
        }
        return None;
      }
      buf := buf + [b];
      i := i + 1;
    }
    NoneUnmapped(mem, ptr, buf);
    return None;
  }

  /**
   * When the bytes read so far are all non-NUL and the next one is not
   * readable (or the limit was hit), no C string of fewer bytes than the
   * limit starts at ptr.
   */
  lemma NoneUnmapped(mem: map<usize, u8>, ptr: usize, buf: seq<u8>)
    requires forall j :: 0 <= j < |buf| ==> Addr(ptr, j) in mem && mem[Addr(ptr, j)] == buf[j] && buf[j] != 0
    requires |buf| == USER_CSTR_MAX || Addr(ptr, |buf|) !in mem
    ensures forall s :: !(CString(mem, ptr, s) && |s| < USER_CSTR_MAX)
  {

  }
}
