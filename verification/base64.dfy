/** `btoa` and `atob` over the alphabet of section 4 of RFC 4648. Each char of
    the input stands for one UTF-16 code unit; bit operations on small
    non-negative numbers are written as the equivalent arithmetic, with the
    source expression next to each. */
module Base64 {
  import opened Js

  /** `tableStr`, written as its four runs. */
  const Alphabet := "ABCDEFGHIJKLMNOPQRSTUVWXYZ" + "abcdefghijklmnopqrstuvwxyz" + "0123456789" + "+/"

  const InvalidCharacter := "String contains an invalid character"

  /** `tableStr.indexOf(c)`: the six-bit value of an alphabet character,
      -1 for any other character (`SextetIsIndexOf` relates it to the
      alphabet string). */
  function Sextet(c: char): (r: int)
    ensures -1 <= r < 64
    ensures c == '=' ==> r == -1
  {
    if 'A' <= c <= 'Z' then c as int - 'A' as int
    else if 'a' <= c <= 'z' then c as int - 'a' as int + 26
    else if '0' <= c <= '9' then c as int - '0' as int + 52
    else if c == '+' then 62
    else if c == '/' then 63
    else -1
  }

  /** `table[k]`: 'A'..'Z', 'a'..'z', '0'..'9', '+', '/' (`SextetCharIsTable`
      relates it to the alphabet string). */
  function SextetChar(k: int): (c: char)
    requires 0 <= k < 64
    ensures Sextet(c) == k && c != '='
  {
    if k < 26 then ('A' as int + k) as char
    else if k < 52 then ('a' as int + k - 26) as char
    else if k < 62 then ('0' as int + k - 52) as char
    else if k == 62 then '+'
    else '/'
  }

  /** `s.indexOf(c)`: the position of the first `c` in `s`, or -1. */
  function IndexIn(s: string, c: char): (r: int)
    ensures -1 <= r < |s|
    ensures r >= 0 ==> s[r] == c
  {
    if |s| == 0 then -1
    else if s[0] == c then 0
    else
      var r := IndexIn(s[1..], c);
      if r == -1 then -1 else r + 1
  }

  lemma SextetCharIsTable(k: int)
    requires 0 <= k < 64
    ensures |Alphabet| == 64 && Alphabet[k] == SextetChar(k)
  {
    var upper, lower, digits := "ABCDEFGHIJKLMNOPQRSTUVWXYZ", "abcdefghijklmnopqrstuvwxyz", "0123456789";
    if k < 26 {
      assert Alphabet[k] == upper[k];
    } else if k < 52 {
      assert Alphabet[k] == lower[k - 26];
    } else if k < 62 {
      assert Alphabet[k] == digits[k - 52];
    }
  }

  lemma {:induction false} IndexInFirst(s: string, k: nat)
    requires k < |s| && forall i :: 0 <= i < k ==> s[i] != s[k]
    ensures IndexIn(s, s[k]) == k
  {
    if k > 0 {
      assert s[1..][k - 1] == s[k];
      IndexInFirst(s[1..], k - 1);
    }
  }

  lemma {:induction false} IndexInAbsent(s: string, c: char)
    requires forall i :: 0 <= i < |s| ==> s[i] != c
    ensures IndexIn(s, c) == -1
  {
    if |s| > 0 {
      IndexInAbsent(s[1..], c);
    }
  }

  lemma SextetInverse(c: char)
    requires Sextet(c) >= 0
    ensures SextetChar(Sextet(c)) == c
  {
    if 'A' <= c <= 'Z' {
    } else if 'a' <= c <= 'z' {
    } else if '0' <= c <= '9' {
    }
  }

  /** The arithmetic `Sextet` is `indexOf` on the alphabet string. */
  lemma SextetIsIndexOf(c: char)
    ensures Sextet(c) == IndexIn(Alphabet, c)
  {
    SextetCharIsTable(0);
    if Sextet(c) >= 0 {
      var k := Sextet(c);
      SextetCharIsTable(k);
      SextetInverse(c);
      forall i | 0 <= i < k ensures Alphabet[i] != Alphabet[k] {
        SextetCharIsTable(i);
      }
      IndexInFirst(Alphabet, k);
    } else {
      forall i | 0 <= i < |Alphabet| ensures Alphabet[i] != c {
        SextetCharIsTable(i);
      }
      IndexInAbsent(Alphabet, c);
    }
  }

  predicate IsLatin1(s: string) {
    forall i :: 0 <= i < |s| ==> s[i] as int <= 255
  }

  lemma Latin1Parts(s: string, k: nat)
    requires k <= |s|
    ensures IsLatin1(s) <==> IsLatin1(s[..k]) && IsLatin1(s[k..])
  {
    assert forall i :: 0 <= i < k ==> s[..k][i] == s[i];
    assert forall i :: k <= i < |s| ==> s[k..][i - k] == s[i];
  }

  // ---------------------------------------------------------------------
  // btoa

  /** One loop iteration of `btoa` on the 1 to 3 code units `g`; a missing
      unit reads as NaN, which bit operations treat as 0. */
  function EncodeGroup(g: string): (r: string)
    requires 1 <= |g| <= 3 && IsLatin1(g)
    ensures |r| == 4
  {
    var a := g[0] as int;
    var b := if |g| >= 2 then g[1] as int else 0;
    var c := if |g| == 3 then g[2] as int else 0;
    [ SextetChar(a / 4)                                      // a >> 2
    , SextetChar((a % 4) * 16 + b / 16)                      // ((a << 4) & 63) | (b >> 4)
    , if |g| < 2 then '=' else SextetChar((b % 16) * 4 + c / 64) // ((b << 2) & 63) | (c >> 6)
    , if |g| < 3 then '=' else SextetChar(c % 64)            // c & 63
    ]
  }

  /** The loop of `btoa` over groups of three code units. */
  function EncodeGroups(s: string): (r: string)
    requires IsLatin1(s)
    ensures |r| == 4 * ((|s| + 2) / 3)
    decreases |s|
  {
    if |s| == 0 then ""
    else
      var k := if |s| < 3 then |s| else 3;
      Latin1Parts(s, k);
      GroupCountStep(|s|, k);
      EncodeGroup(s[..k]) + EncodeGroups(s[k..])
  }

  lemma GroupCountStep(len: nat, k: nat)
    requires 0 < len && k == (if len < 3 then len else 3)
    ensures (len + 2) / 3 == 1 + (len - k + 2) / 3
  {
  }

  /** `btoa(bin)`. Every group that holds a code unit above 255 throws the
      same error, so the result only depends on whether there is one. */
  function Btoa(s: string): (r: Result<string>)
    ensures r.Failure? <==> !IsLatin1(s)
    ensures r.Failure? ==> r.error == TypeError(InvalidCharacter)
    ensures r.Success? ==> |r.value| == 4 * ((|s| + 2) / 3)
  {
    if IsLatin1(s) then Success(EncodeGroups(s)) else Failure(TypeError(InvalidCharacter))
  }

  // ---------------------------------------------------------------------
  // atob

  /** The literal shape `(=[^=]+|={3,})$` that makes `atob` refuse its input:
      an '=' followed by non-'=' characters up to the end, or three '=' at
      the end. */
  predicate RefusedPadding(s: string) {
    || (exists p :: 0 <= p < |s| - 1 && s[p] == '=' && forall q :: p < q < |s| ==> s[q] != '=')
    || (|s| >= 3 && s[|s| - 3..] == "===")
  }

  /** The same shape, read directly: an '=' somewhere but not at the end. */
  lemma RefusedPaddingMeans(s: string)
    ensures RefusedPadding(s) <==>
      ('=' in s && s[|s| - 1] != '=') || (|s| >= 3 && s[|s| - 3..] == "===")
  {
    if '=' in s && s[|s| - 1] != '=' {
      var p := LastEquals(s);
      assert p < |s| - 1;
    }
    if exists p :: 0 <= p < |s| - 1 && s[p] == '=' && forall q :: p < q < |s| ==> s[q] != '=' {
      var p :| 0 <= p < |s| - 1 && s[p] == '=' && forall q :: p < q < |s| ==> s[q] != '=';
      assert s[|s| - 1] != '=';
    }
  }

  function LastEquals(s: string): (p: nat)
    requires '=' in s
    ensures p < |s| && s[p] == '='
    ensures forall q :: p < q < |s| ==> s[q] != '='
  {
    if s[|s| - 1] == '=' then |s| - 1
    else
      assert '=' in s[..|s| - 1] by {
        var i :| 0 <= i < |s| && s[i] == '=';
        assert s[..|s| - 1][i] == '=';
      }
      LastEquals(s[..|s| - 1])
  }

  /** `base64.replace(/=/g, '')`. */
  function StripPadding(s: string): (r: string)
    ensures '=' !in r
    ensures |r| <= |s|
  {
    if |s| == 0 then ""
    else if s[0] == '=' then StripPadding(s[1..])
    else [s[0]] + StripPadding(s[1..])
  }

  /** `base64[j++] || 'A'` for the four positions of a group. */
  function GroupChar(t: string, j: nat): char {
    if j < |t| then t[j] else 'A'
  }

  /** One loop iteration of `atob` on the (up to) four characters from `t`. */
  function DecodeGroup(t: string): (r: Result<seq<byte>>)
    ensures r.Success? ==> |r.value| == 3
  {
    var a := Sextet(GroupChar(t, 0));
    var b := Sextet(GroupChar(t, 1));
    var c := Sextet(GroupChar(t, 2));
    var d := Sextet(GroupChar(t, 3));
    if a < 0 || b < 0 || c < 0 || d < 0 then Failure(TypeError(InvalidCharacter))   // (a | b | c | d) < 0
    else Success([ (a * 4 + b / 16) % 256    // ((a << 2) | (b >> 4)) & 255
                 , (b * 16 + c / 4) % 256    // ((b << 4) | (c >> 2)) & 255
                 , (c * 64 + d) % 256 ])     // ((c << 6) | d) & 255
  }

  /** The loop of `atob`: ceil(|t| / 4) groups, three bytes each. */
  function DecodeGroups(t: string): (r: Result<seq<byte>>)
    ensures r.Success? ==> |r.value| == 3 * ((|t| + 3) / 4)
    decreases |t|
  {
    if |t| == 0 then Success([])
    else
      var k := if |t| < 4 then |t| else 4;
      var group :- DecodeGroup(t[..k]);
      var rest :- DecodeGroups(t[k..]);
      assert (|t| + 3) / 4 == 1 + (|t[k..]| + 3) / 4;
      Success(group + rest)
  }

  /** `String.fromCharCode.apply(null, bin)`. */
  function FromCharCodes(bin: seq<byte>): (r: string)
    ensures |r| == |bin|
    ensures forall i :: 0 <= i < |bin| ==> r[i] as int == bin[i]
  {
    seq(|bin|, i requires 0 <= i < |bin| => bin[i] as char)
  }

  /** `str.substr(0, len)`: a negative length keeps nothing. */
  function Substr0(str: string, len: int): (r: string)
    ensures |r| == if len < 0 then 0 else if len > |str| then |str| else len
    ensures r == str[..|r|]
  {
    if len < 0 then "" else if len > |str| then str else str[..len]
  }

  /** `atob(base64)` exactly as written: the final `substr` keeps
      `bin.length + n - 4` characters, also when n is 0. */
  function Atob(s: string): (r: Result<string>)
    ensures RefusedPadding(s) ==> r == Failure(TypeError(InvalidCharacter))
    ensures !RefusedPadding(s) && |StripPadding(s)| % 4 == 1 ==> r == Failure(PlainError(InvalidCharacter))
  {
    if RefusedPadding(s) then Failure(TypeError(InvalidCharacter))
    else
      var t := StripPadding(s);
      var n := |t| % 4;    // base64.length & 3
      if n == 1 then Failure(PlainError(InvalidCharacter))
      else
        var bin :- DecodeGroups(t);
        Success(Substr0(FromCharCodes(bin), |bin| + n - 4))
  }

  /** `atob` refuses exactly a refused padding shape, a length of 1 mod 4
      after removing '=', and a character outside the alphabet; only the
      length case throws a plain Error. */
  lemma AtobRefuses(s: string)
    ensures Atob(s).Failure? <==>
      RefusedPadding(s) || |StripPadding(s)| % 4 == 1 || !InAlphabet(StripPadding(s))
    ensures Atob(s).Failure? ==>
      (Atob(s).error.PlainError? <==> !RefusedPadding(s) && |StripPadding(s)| % 4 == 1)
  {
    DecodeGroupsRefuses(StripPadding(s));
  }

  /** The decoding loop refuses exactly the inputs with a character outside
      the alphabet, always with a TypeError. */
  lemma {:induction false} DecodeGroupsRefuses(t: string)
    ensures DecodeGroups(t).Failure? <==> !InAlphabet(t)
    ensures DecodeGroups(t).Failure? ==> DecodeGroups(t).error.TypeError?
    decreases |t|
  {
    if |t| > 0 {
      var k := if |t| < 4 then |t| else 4;
      DecodeGroupRefuses(t[..k]);
      DecodeGroupsRefuses(t[k..]);
      assert InAlphabet(t) <==> InAlphabet(t[..k]) && InAlphabet(t[k..]) by {
        assert forall i :: 0 <= i < k ==> t[..k][i] == t[i];
        assert forall i :: k <= i < |t| ==> t[k..][i - k] == t[i];
      }
    }
  }

  /** One group is refused exactly when one of its characters is outside
      the alphabet; the 'A' standing in for a missing character never is. */
  lemma DecodeGroupRefuses(t: string)
    requires |t| <= 4
    ensures DecodeGroup(t).Failure? <==> !InAlphabet(t)
    ensures DecodeGroup(t).Failure? ==> DecodeGroup(t).error.TypeError?
  {
    assert Sextet('A') == 0;
    if !InAlphabet(t) {
      var i :| 0 <= i < |t| && Sextet(t[i]) < 0;
      assert GroupChar(t, i) == t[i];
    }
  }

  /** `atob` with the evidently intended final length: `n` leftover characters
      stand for n - 1 bytes, so 4 - n bytes of the last group are dropped, and
      none when n is 0. */
  function AtobCorrected(s: string): (r: Result<string>)
    ensures r.Failure? <==> Atob(s).Failure?
  {
    if RefusedPadding(s) then Failure(TypeError(InvalidCharacter))
    else
      var t := StripPadding(s);
      var n := |t| % 4;
      if n == 1 then Failure(PlainError(InvalidCharacter))
      else
        var bin :- DecodeGroups(t);
        var dropped := if n == 0 then 0 else 4 - n;
        Success(Substr0(FromCharCodes(bin), |bin| - dropped))
  }

  // ---------------------------------------------------------------------
  // Shape of btoa's output

  /** How many '=' `btoa` appends for an input of length `len`. */
  function PadCount(len: nat): nat {
    if len % 3 == 0 then 0 else 3 - len % 3
  }

  /** Length bookkeeping of a round trip, with `len = 3q + r` spelled out:
      `u` is the length of the unpadded encoding and `bin` the number of
      bytes decoding it yields. */
  lemma LengthArithmetic(len: nat, u: int, bin: int)
    requires u == 4 * ((len + 2) / 3) - PadCount(len)
    requires bin == 3 * ((u + 3) / 4)
    ensures len >= 3 ==> PadCount(len) == PadCount(len - 3)
    ensures len >= 3 ==> (len + 2) / 3 == 1 + (len - 1) / 3
    ensures u % 4 == (if len % 3 == 0 then 0 else len % 3 + 1)
    ensures len % 3 != 0 ==> bin + u % 4 - 4 == len
    ensures len % 3 == 0 ==> bin == len
  {
    var q, r := len / 3, len % 3;
    assert len == 3 * q + r;
    if r == 0 {
      assert (len + 2) / 3 == q;
      assert u == 4 * q;
      assert (u + 3) / 4 == q;
    } else if r == 1 {
      assert (len + 2) / 3 == q + 1;
      assert u == 4 * q + 2;
      assert (u + 3) / 4 == q + 1;
    } else {
      assert (len + 2) / 3 == q + 1;
      assert u == 4 * q + 3;
      assert (u + 3) / 4 == q + 1;
    }
  }

  /** The same facts for one length on its own. */
  lemma PadArithmetic(len: nat)
    ensures len >= 3 ==> PadCount(len) == PadCount(len - 3)
    ensures len >= 3 ==> (len + 2) / 3 == 1 + (len - 1) / 3
  {
    if len >= 3 {
      assert len % 3 == (len - 3) % 3;
    }
  }

  /** A string of alphabet characters only. */
  predicate InAlphabet(u: string) {
    forall i :: 0 <= i < |u| ==> Sextet(u[i]) >= 0
  }

  /** The encoding without its '=' padding: four characters per full group,
      two or three for a final group of one or two code units. */
  function Unpadded(s: string): string
    requires IsLatin1(s)
    decreases |s|
  {
    if |s| == 0 then ""
    else if |s| < 3 then EncodeGroup(s)[..|s| + 1]
    else
      Latin1Parts(s, 3);
      EncodeGroup(s[..3]) + Unpadded(s[3..])
  }

  /** The two characters that stand for a final group of one code unit. */
  lemma UnpaddedOne(s: string)
    requires |s| == 1 && IsLatin1(s)
    ensures var a := s[0] as int;
      Unpadded(s) == [SextetChar(a / 4), SextetChar((a % 4) * 16 + 0 / 16)] + []
  {
    var g := EncodeGroup(s);
    assert Unpadded(s) == g[..2];
  }

  /** The three characters that stand for a final group of two code units. */
  lemma UnpaddedTwo(s: string)
    requires |s| == 2 && IsLatin1(s)
    ensures var a, b := s[0] as int, s[1] as int;
      Unpadded(s) == [SextetChar(a / 4), SextetChar((a % 4) * 16 + b / 16)] + [SextetChar((b % 16) * 4)]
  {
    var g := EncodeGroup(s);
    EncodeTwoThird(s);
    assert Unpadded(s) == g[..3];
  }

  lemma EncodeTwoThird(s: string)
    requires |s| == 2 && IsLatin1(s)
    ensures EncodeGroup(s)[2] == SextetChar((s[1] as int % 16) * 4)
  {
  }

  lemma {:induction false} AlphabetConcat(x: string, y: string)
    requires InAlphabet(x) && InAlphabet(y)
    ensures InAlphabet(x + y)
  {
    assert forall i :: |x| <= i < |x + y| ==> (x + y)[i] == y[i - |x|];
  }

  /** The unpadded encoding is made of alphabet characters, 4 per group of
      three code units less the padding `btoa` would add. */
  lemma {:induction false} UnpaddedFacts(s: string)
    requires IsLatin1(s)
    ensures |Unpadded(s)| == 4 * ((|s| + 2) / 3) - PadCount(|s|)
    ensures InAlphabet(Unpadded(s))
    decreases |s|
  {
    if |s| >= 3 {
      Latin1Parts(s, 3);
      UnpaddedFacts(s[3..]);
      PadArithmetic(|s|);
      var g := EncodeGroup(s[..3]);
      assert InAlphabet(g) by {
        assert Sextet(g[2]) >= 0 && Sextet(g[3]) >= 0;
      }
      AlphabetConcat(g, Unpadded(s[3..]));
    } else if |s| == 1 {
      UnpaddedOne(s);
    } else if |s| == 2 {
      UnpaddedTwo(s);
    }
  }

  function Equals(k: nat): (r: string)
    ensures |r| == k && forall i :: 0 <= i < k ==> r[i] == '='
  {
    if k == 0 then "" else "=" + Equals(k - 1)
  }

  /** `btoa` writes the alphabet encoding followed by "==" when the length is
      1 mod 3, "=" when it is 2 mod 3, and nothing otherwise. */
  lemma {:induction false} EncodeGroupsShape(s: string)
    requires IsLatin1(s)
    ensures EncodeGroups(s) == Unpadded(s) + Equals(PadCount(|s|))
    decreases |s|
  {
    if |s| >= 3 {
      Latin1Parts(s, 3);
      EncodeGroupsShape(s[3..]);
      PadArithmetic(|s|);
    } else if |s| > 0 {
      assert s[..|s|] == s && s[|s|..] == "";
      var g := EncodeGroup(s);
      if |s| == 1 { assert g == g[..2] + "=="; } else { assert g == g[..3] + "="; }
    }
  }

  /** `btoa`'s output never has the shape `atob` refuses. */
  lemma BtoaPaddingAccepted(s: string)
    requires IsLatin1(s)
    ensures !RefusedPadding(EncodeGroups(s))
  {
    EncodeGroupsShape(s);
    UnpaddedFacts(s);
    PaddedAccepted(Unpadded(s), PadCount(|s|));
  }

  /** Alphabet characters followed by at most two '=' (and at least two
      characters before any '='). */
  lemma PaddedAccepted(u: string, k: nat)
    requires InAlphabet(u) && k <= 2 && (k > 0 ==> |u| >= 2)
    ensures !RefusedPadding(u + Equals(k))
  {
    var out := u + Equals(k);
    assert forall i :: 0 <= i < |u| ==> out[i] == u[i] && out[i] != '=';
    RefusedPaddingMeans(out);
    if '=' in out {
      var i :| 0 <= i < |out| && out[i] == '=';
      assert k > 0 && out[|out| - 1] == '=';
    }
    if |out| >= 3 {
      assert out[|out| - 3] == u[|out| - 3];
    }
  }

  // ---------------------------------------------------------------------
  // Decoding btoa's output

  lemma {:induction false} StripPaddingConcat(x: string, y: string)
    ensures StripPadding(x + y) == StripPadding(x) + StripPadding(y)
  {
    if |x| > 0 {
      assert (x + y)[1..] == x[1..] + y;
      StripPaddingConcat(x[1..], y);
    } else {
      assert x + y == y;
    }
  }

  lemma {:induction false} StripNothing(x: string)
    requires InAlphabet(x)
    ensures StripPadding(x) == x
  {
    if |x| > 0 {
      assert InAlphabet(x[1..]) by { assert forall i :: 0 <= i < |x[1..]| ==> x[1..][i] == x[i + 1]; }
      StripNothing(x[1..]);
      assert x == [x[0]] + x[1..];
    }
  }

  lemma {:induction false} StripEquals(k: nat)
    ensures StripPadding(Equals(k)) == ""
  {
    if k > 0 {
      assert Equals(k)[1..] == Equals(k - 1);
      StripEquals(k - 1);
    }
  }

  /** Removing the '=' from `btoa`'s output leaves the unpadded encoding. */
  lemma StripBtoa(s: string)
    requires IsLatin1(s)
    ensures StripPadding(EncodeGroups(s)) == Unpadded(s)
  {
    var u, e := Unpadded(s), Equals(PadCount(|s|));
    EncodeGroupsShape(s);
    UnpaddedFacts(s);
    StripPaddingConcat(u, e);
    StripNothing(u);
    StripEquals(PadCount(|s|));
  }

  lemma FirstByte(a: int, b: int)
    requires 0 <= a < 256 && 0 <= b < 256
    ensures ((a / 4) * 4 + ((a % 4) * 16 + b / 16) / 16) % 256 == a
  {
    assert ((a % 4) * 16 + b / 16) / 16 == a % 4;
  }

  lemma SecondByte(a: int, b: int, c: int)
    requires 0 <= a < 256 && 0 <= b < 256 && 0 <= c < 256
    ensures (((a % 4) * 16 + b / 16) * 16 + ((b % 16) * 4 + c / 64) / 4) % 256 == b
  {
    assert ((b % 16) * 4 + c / 64) / 4 == b % 16;
    assert ((a % 4) * 16 + b / 16) * 16 + b % 16 == (a % 4) * 256 + b;
  }

  lemma ThirdByte(b: int, c: int)
    requires 0 <= b < 256 && 0 <= c < 256
    ensures (((b % 16) * 4 + c / 64) * 64 + c % 64) % 256 == c
  {
    assert ((b % 16) * 4 + c / 64) * 64 + c % 64 == (b % 16) * 256 + c;
  }

  /** A full group decodes to the three code units it encodes. */
  lemma DecodeFullGroup(g: string)
    requires |g| == 3 && IsLatin1(g)
    ensures DecodeGroup(EncodeGroup(g)) == Success([g[0] as int, g[1] as int, g[2] as int])
  {
    var a, b, c := g[0] as int, g[1] as int, g[2] as int;
    FirstByte(a, b);
    SecondByte(a, b, c);
    ThirdByte(b, c);
  }

  /** Decoding two or three alphabet characters, padded with 'A'. */
  lemma DecodeShort(e0: int, e1: int, e2: int, three: bool)
    requires 0 <= e0 < 64 && 0 <= e1 < 64 && 0 <= e2 < 64
    ensures var u := [SextetChar(e0), SextetChar(e1)] + (if three then [SextetChar(e2)] else []);
      && DecodeGroup(u).Success?
      && DecodeGroup(u).value[0] == (e0 * 4 + e1 / 16) % 256
      && (three ==> DecodeGroup(u).value[1] == (e1 * 16 + e2 / 4) % 256)
  {
    var u := [SextetChar(e0), SextetChar(e1)] + (if three then [SextetChar(e2)] else []);
    assert Sextet(GroupChar(u, 0)) == e0 && Sextet(GroupChar(u, 1)) == e1;
    assert Sextet('A') == 0;
    if three { assert Sextet(GroupChar(u, 2)) == e2; }
  }

  /** A final group of one or two code units decodes to them, followed by
      filler bytes. */
  lemma DecodePartialGroup(s: string)
    requires 1 <= |s| <= 2 && IsLatin1(s)
    ensures DecodeGroup(Unpadded(s)).Success?
    ensures DecodeGroup(Unpadded(s)).value[0] == s[0] as int
    ensures |s| == 2 ==> DecodeGroup(Unpadded(s)).value[1] == s[1] as int
  {
    if |s| == 1 {
      UnpaddedOne(s);
      DecodeOne(s[0] as int, Unpadded(s));
    } else {
      UnpaddedTwo(s);
      DecodeTwo(s[0] as int, s[1] as int, Unpadded(s));
    }
  }

  lemma DecodeOne(a: int, u: string)
    requires 0 <= a < 256
    requires u == [SextetChar(a / 4), SextetChar((a % 4) * 16 + 0 / 16)] + []
    ensures DecodeGroup(u).Success? && DecodeGroup(u).value[0] == a
  {
    DecodeShort(a / 4, (a % 4) * 16 + 0 / 16, 0, false);
    FirstByte(a, 0);
  }

  lemma DecodeTwo(a: int, b: int, u: string)
    requires 0 <= a < 256 && 0 <= b < 256
    requires u == [SextetChar(a / 4), SextetChar((a % 4) * 16 + b / 16)] + [SextetChar((b % 16) * 4)]
    ensures DecodeGroup(u).Success? && DecodeGroup(u).value[0] == a && DecodeGroup(u).value[1] == b
  {
    DecodeShort(a / 4, (a % 4) * 16 + b / 16, (b % 16) * 4, true);
    FirstByte(a, b);
    SecondByte(a, b, 0);
  }

  function CodeUnits(s: string): (r: seq<int>)
    ensures |r| == |s| && forall i :: 0 <= i < |s| ==> r[i] == s[i] as int
  {
    seq(|s|, i requires 0 <= i < |s| => s[i] as int)
  }

  /** Decoding proceeds four characters at a time. */
  lemma DecodeGroupsCons(x: string, y: string)
    requires |x| == 4 && DecodeGroup(x).Success? && DecodeGroups(y).Success?
    ensures DecodeGroups(x + y) == Success(DecodeGroup(x).value + DecodeGroups(y).value)
  {
    assert (x + y)[..4] == x && (x + y)[4..] == y;
  }

  lemma DecodeFullStep(s: string)
    requires |s| >= 3 && IsLatin1(s) && IsLatin1(s[3..])
    requires DecodeGroups(Unpadded(s[3..])).Success?
    requires |s| - 3 <= |DecodeGroups(Unpadded(s[3..])).value|
    requires DecodeGroups(Unpadded(s[3..])).value[..|s| - 3] == CodeUnits(s[3..])
    ensures DecodeGroups(Unpadded(s)).Success?
    ensures |s| <= |DecodeGroups(Unpadded(s)).value|
    ensures DecodeGroups(Unpadded(s)).value[..|s|] == CodeUnits(s)
  {
    Latin1Parts(s, 3);
    DecodeFullGroup(s[..3]);
    var head := [s[0] as int, s[1] as int, s[2] as int];
    DecodeGroupsCons(EncodeGroup(s[..3]), Unpadded(s[3..]));
    assert Unpadded(s) == EncodeGroup(s[..3]) + Unpadded(s[3..]);
    var rest := DecodeGroups(Unpadded(s[3..])).value;
    PrefixOfConcat(head, rest, |s|);
    CodeUnitsSplit(s);
  }

  lemma PrefixOfConcat(head: seq<int>, rest: seq<int>, n: int)
    requires |head| == 3 && 3 <= n <= |rest| + 3
    ensures (head + rest)[..n] == head + rest[..n - 3]
  {
  }

  lemma CodeUnitsSplit(s: string)
    requires |s| >= 3
    ensures CodeUnits(s) == [s[0] as int, s[1] as int, s[2] as int] + CodeUnits(s[3..])
  {
  }

  /** Decoding the unpadded encoding yields the input's code units first. */
  lemma {:induction false} DecodeUnpadded(s: string)
    requires IsLatin1(s)
    ensures DecodeGroups(Unpadded(s)).Success?
    ensures |s| <= |DecodeGroups(Unpadded(s)).value|
    ensures DecodeGroups(Unpadded(s)).value[..|s|] == CodeUnits(s)
    decreases |s|
  {
    var u := Unpadded(s);
    if |s| >= 3 {
      Latin1Parts(s, 3);
      DecodeUnpadded(s[3..]);
      DecodeFullStep(s);
    } else if |s| > 0 {
      DecodePartialGroup(s);
      if |s| == 1 { UnpaddedOne(s); } else { UnpaddedTwo(s); }
      assert u[..|u|] == u && u[|u|..] == "";
      assert DecodeGroups(u) == Success(DecodeGroup(u).value + []);
    }
  }

  /** The decoded characters of `btoa(s)`, up to |s|, are `s`. */
  lemma DecodedPrefix(s: string)
    requires IsLatin1(s)
    ensures DecodeGroups(Unpadded(s)).Success?
    ensures var bin := DecodeGroups(Unpadded(s)).value;
      |s| <= |bin| && FromCharCodes(bin)[..|s|] == s
  {
    DecodeUnpadded(s);
    var bin := DecodeGroups(Unpadded(s)).value;
    var str := FromCharCodes(bin);
    forall i | 0 <= i < |s| ensures str[i] == s[i] {
      assert bin[..|s|][i] == bin[i];
    }
  }

  /** Everything about `btoa(s)` that decoding needs. */
  lemma BtoaDecodes(s: string)
    requires IsLatin1(s)
    ensures var u := Unpadded(s);
      && !RefusedPadding(EncodeGroups(s))
      && StripPadding(EncodeGroups(s)) == u
      && |u| == 4 * ((|s| + 2) / 3) - PadCount(|s|)
      && DecodeGroups(u).Success?
      && |s| <= |DecodeGroups(u).value|
      && FromCharCodes(DecodeGroups(u).value)[..|s|] == s
  {
    BtoaPaddingAccepted(s);
    StripBtoa(s);
    UnpaddedFacts(s);
    DecodedPrefix(s);
  }

  /** The last steps of `atob` and of the corrected version, once the
      padding check passed and the groups decoded. */
  lemma AtobSteps(x: string, t: string, bin: seq<byte>)
    requires !RefusedPadding(x) && StripPadding(x) == t && |t| % 4 != 1
    requires DecodeGroups(t) == Success(bin)
    ensures Atob(x) == Success(Substr0(FromCharCodes(bin), |bin| + |t| % 4 - 4))
  {
  }

  lemma AtobCorrectedSteps(x: string, t: string, bin: seq<byte>)
    requires !RefusedPadding(x) && StripPadding(x) == t && |t| % 4 != 1
    requires DecodeGroups(t) == Success(bin)
    ensures AtobCorrected(x) == Success(Substr0(FromCharCodes(bin), |bin| - if |t| % 4 == 0 then 0 else 4 - |t| % 4))
  {
  }

  // ---------------------------------------------------------------------
  // Round trips

  /** What `atob(btoa(s))` yields for a Latin-1 string: `s` itself unless
      |s| is a non-zero multiple of 3, in which case the last four
      characters (or all of them, when |s| is 3) are lost. */
  lemma AtobAfterBtoa(s: string)
    requires IsLatin1(s)
    ensures Btoa(s).Success?
    ensures |s| % 3 != 0 || |s| == 0 ==> Atob(Btoa(s).value) == Success(s)
    ensures |s| % 3 == 0 && |s| > 0 ==>
      Atob(Btoa(s).value) == Success(s[..if |s| < 4 then 0 else |s| - 4])
  {
    var str, len := AtobOfBtoa(s);
    AtobCut(s, str, len);
  }

  /** `atob(btoa(s))` is a cut of a decoding that starts with `s`. */
  lemma AtobOfBtoa(s: string) returns (str: string, len: int)
    requires IsLatin1(s)
    ensures Btoa(s).Success? && Atob(Btoa(s).value) == Success(Substr0(str, len))
    ensures |s| <= |str| && str[..|s|] == s
    ensures |s| % 3 != 0 ==> len == |s|
    ensures |s| % 3 == 0 ==> len == |s| - 4
  {
    BtoaDecodes(s);
    var u := Unpadded(s);
    var bin := DecodeGroups(u).value;
    LengthArithmetic(|s|, |u|, |bin|);
    AtobSteps(EncodeGroups(s), u, bin);
    str, len := FromCharCodes(bin), |bin| + |u| % 4 - 4;
  }

  /** The cut `atob` makes, applied to a decoding that starts with `s`. */
  lemma AtobCut(s: string, str: string, len: int)
    requires |s| <= |str| && str[..|s|] == s
    requires |s| % 3 != 0 ==> len == |s|
    requires |s| % 3 == 0 ==> len == |s| - 4
    ensures |s| % 3 != 0 || |s| == 0 ==> Substr0(str, len) == s
    ensures |s| % 3 == 0 && |s| > 0 ==> Substr0(str, len) == s[..if |s| < 4 then 0 else |s| - 4]
  {
    if |s| % 3 == 0 && |s| >= 4 {
      assert str[..|s| - 4] == str[..|s|][..|s| - 4];
    }
  }

  /** A concrete witness of the loss: three characters decode to nothing. */
  lemma AtobLosesFullGroup()
    ensures Btoa("abc").Success?
    ensures Atob(Btoa("abc").value) == Success("")
  {
    assert IsLatin1("abc");
    AtobAfterBtoa("abc");
  }

  /** `atob` after `btoa` recovers its input exactly when the input is
      empty or its length is not a multiple of 3. */
  lemma AtobBtoaRoundTripIff(s: string)
    requires IsLatin1(s)
    ensures Atob(Btoa(s).value) == Success(s) <==> |s| % 3 != 0 || |s| == 0
  {
    AtobAfterBtoa(s);
  }

  /** With the corrected length every Latin-1 string round-trips. */
  lemma CorrectedRoundTrip(s: string)
    requires IsLatin1(s)
    ensures Btoa(s).Success?
    ensures AtobCorrected(Btoa(s).value) == Success(s)
  {
    BtoaDecodes(s);
    var u := Unpadded(s);
    var bin := DecodeGroups(u).value;
    LengthArithmetic(|s|, |u|, |bin|);
    AtobCorrectedSteps(EncodeGroups(s), u, bin);
    assert Substr0(FromCharCodes(bin), |bin| - if |u| % 4 == 0 then 0 else 4 - |u| % 4) == FromCharCodes(bin)[..|s|];
  }
}
