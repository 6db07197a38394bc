/**
 * Lambda's `TempusHelper`: the class letter and emote of a Tempus class id,
 * the scaling of Tempus ticks to .NET `TimeSpan` ticks, and the links to
 * Tempus and YouTube pages.
 */
module TempusHelper {

  /** C# `int`. */
  type Int32 = x: int | -0x8000_0000 <= x < 0x8000_0000

  /** C# `long`. */
  type Int64 = x: int | -0x8000_0000_0000_0000 <= x < 0x8000_0000_0000_0000

  const TwoTo64: int := 0x1_0000_0000_0000_0000

  // ---------------------------------------------------------------------------
  // Decimal strings (`int.ToString()`)

  predicate IsDigit(c: char)
  {
    '0' <= c <= '9'
  }

  function DigitChar(d: nat): (c: char)
    requires d < 10
    ensures IsDigit(c)
  {
    ('0' as int + d) as char
  }

  function DigitValue(c: char): (d: nat)
    requires IsDigit(c)
    ensures d < 10 && DigitChar(d) == c
  {
    (c as int - '0' as int)
  }

  /** The decimal digits of `n`, without leading zeros. */
  function NatToString(n: nat): (s: string)
    ensures |s| >= 1
    ensures forall i :: 0 <= i < |s| ==> IsDigit(s[i])
    ensures s[0] == '0' <==> n == 0
    ensures |s| > 1 ==> s[0] != '0'
    decreases n
  {
    if n < 10 then [DigitChar(n)] else NatToString(n / 10) + [DigitChar(n % 10)]
  }

  /** The number a string of decimal digits denotes. */
  function ParseNat(s: string): nat
    requires forall i :: 0 <= i < |s| ==> IsDigit(s[i])
  {
    if s == [] then 0 else 10 * ParseNat(s[..|s| - 1]) + DigitValue(s[|s| - 1])
  }

  lemma {:induction false} ParseNatToString(n: nat)
    ensures ParseNat(NatToString(n)) == n
    decreases n
  {
    if n >= 10 {
      var s := NatToString(n);
      assert s[..|s| - 1] == NatToString(n / 10);
      ParseNatToString(n / 10);
    }
  }

  /** `int.ToString()`: a `-` sign before the digits of a negative number. */
  function IntToString(i: int): (s: string)
    ensures |s| >= 1
    ensures i >= 0 ==> IsDigit(s[0])
    ensures i < 0 ==> s[0] == '-'
  {
    if i < 0 then "-" + NatToString(-i) else NatToString(i)
  }

  function ParseInt(s: string): int
    requires |s| >= 1
    requires s[0] == '-' || IsDigit(s[0])
    requires forall i :: 1 <= i < |s| ==> IsDigit(s[i])
  {
    if s[0] == '-' then -(ParseNat(s[1..]) as int) else ParseNat(s)
  }

  /** Reading the decimal string back gives the number. */
  lemma IntToStringRoundTrip(i: int)
    ensures var s := IntToString(i); (s[0] == '-' || IsDigit(s[0])) && (forall k :: 1 <= k < |s| ==> IsDigit(s[k]))
    ensures ParseInt(IntToString(i)) == i
  {
    var s := IntToString(i);
    if i < 0 {
      var digits := NatToString(-i);
      assert s == "-" + digits;
      assert s[1..] == digits;
      forall k | 1 <= k < |s| ensures IsDigit(s[k]) {
        assert s[k] == digits[k - 1];
      }
      ParseNatToString(-i);
    } else {
      ParseNatToString(i);
    }
  }

  /** Distinct numbers have distinct decimal strings. */
  lemma IntToStringInjective(a: int, b: int)
    requires a != b
    ensures IntToString(a) != IntToString(b)
  {
    IntToStringRoundTrip(a);
    IntToStringRoundTrip(b);
  }

  /** Decimal digits as `ToString()` writes them: at least one, and no leading zero. */
  predicate CanonicalDigits(d: string)
  {
    && |d| >= 1
    && (forall k :: 0 <= k < |d| ==> IsDigit(d[k]))
    && (|d| > 1 ==> d[0] != '0')
  }

  /** `s` is a decimal string in the form `ToString()` writes, and `n` the number it reads as; there is no "-0". */
  predicate Denotes(s: string, n: int)
  {
    if |s| >= 1 && s[0] == '-' then
      CanonicalDigits(s[1..]) && s[1..] != "0" && n == -(ParseNat(s[1..]) as int)
    else
      CanonicalDigits(s) && n == ParseNat(s)
  }

  /** Digits that do not start with a zero read as a positive number. */
  lemma {:induction false} ParseNatPositive(d: string)
    requires |d| >= 1 && d[0] != '0'
    requires forall k :: 0 <= k < |d| ==> IsDigit(d[k])
    ensures ParseNat(d) >= 1
    decreases |d|
  {
    if |d| > 1 {
      ParseNatPositive(d[..|d| - 1]);
    } else {
      assert DigitChar(DigitValue(d[0])) == d[0];
    }
  }

  lemma DivModTen(a: nat, v: nat)
    requires v < 10
    ensures (10 * a + v) / 10 == a && (10 * a + v) % 10 == v
  {
  }

  /** Canonical digits are the decimal string of the number they read as. */
  lemma {:induction false} NatToStringParse(d: string)
    requires CanonicalDigits(d)
    ensures NatToString(ParseNat(d)) == d
    decreases |d|
  {
    var last := |d| - 1;
    if last == 0 {
      assert ParseNat(d) == DigitValue(d[0]);
    } else {
      var front := d[..last];
      var v := DigitValue(d[last]);
      assert front[0] == d[0];
      NatToStringParse(front);
      ParseNatPositive(front);
      DivModTen(ParseNat(front), v);
      assert d == front + [d[last]];
    }
  }

  /** The decimal string of a number is in canonical form and denotes it. */
  lemma IntToStringDenotes(i: int)
    ensures Denotes(IntToString(i), i)
  {
    var s := IntToString(i);
    if i < 0 {
      var digits := NatToString(-i);
      assert s[1..] == digits;
      ParseNatToString(-i);
    } else {
      ParseNatToString(i);
    }
  }

  /** A string denotes `n` exactly when it is `n.ToString()`: the canonical form is unique. */
  lemma DenotesExactly(s: string, n: int)
    ensures Denotes(s, n) <==> s == IntToString(n)
  {
    IntToStringDenotes(n);
    if Denotes(s, n) {
      if |s| >= 1 && s[0] == '-' {
        var d := s[1..];
        if |d| == 1 {
          assert d[0] != '0' by { assert d == [d[0]]; }
        }
        ParseNatPositive(d);
        NatToStringParse(d);
        assert s == "-" + d;
      } else {
        NatToStringParse(s);
      }
    }
  }

  /** Examples: leading zeros, a bare sign and a negative zero are not how `ToString()` writes a number. */
  lemma DenotesExamples()
    ensures Denotes("7", 7) && Denotes("-7", -7) && Denotes("0", 0)
    ensures !Denotes("07", 7) && !Denotes("-", 0) && !Denotes("-0", 0)
  {
    assert "7"[1..] == [];
    assert "-7"[1..] == "7";
  }

  // ---------------------------------------------------------------------------
  // Classes

  const SoldierEmote: string := "<:soldier:702841577806233702>"
  /** The demoman emote, with the leading space the source gives it. */
  const DemomanEmote: string := " <:demoman:702841578259087380>"

  /** `GetClass`: "D" for class 4, "S" for class 3, the id in decimal otherwise. */
  function GetClass(id: Int32): (s: string)
    ensures id == 4 ==> s == "D"
    ensures id == 3 ==> s == "S"
    ensures id != 3 && id != 4 ==> Denotes(s, id)
  {
    IntToStringDenotes(id);
    match id
    case 4 => "D"
    case 3 => "S"
    case _ => IntToString(id)
  }

  /** Only class 3 is "S" and only class 4 is "D"; every other id gives a string of its own. */
  lemma GetClassDistinguishes(a: Int32, b: Int32)
    ensures GetClass(a) == "S" <==> a == 3
    ensures GetClass(a) == "D" <==> a == 4
    ensures a != b ==> GetClass(a) != GetClass(b)
  {
    if a != 3 && a != 4 {
      assert IntToString(a)[0] != 'S' && IntToString(a)[0] != 'D';
    }
    if a != b && a != 3 && a != 4 && b != 3 && b != 4 {
      IntToStringInjective(a, b);
    }
    if b != 3 && b != 4 {
      assert IntToString(b)[0] != 'S' && IntToString(b)[0] != 'D';
    }
  }

  /** `GetClassEmote`: the soldier emote for the class whose letter is "S", the demoman emote for any other id. */
  function GetClassEmote(id: Int32): (e: string)
    ensures e == SoldierEmote <==> id == 3
    ensures e != SoldierEmote ==> e == DemomanEmote
  {
    GetClassDistinguishes(id, id);
    if GetClass(id) == "S" then SoldierEmote else DemomanEmote
  }

  // ---------------------------------------------------------------------------
  // Ticks

  /** A C# `long` result of unchecked arithmetic: the value modulo 2^64, in the signed range. */
  function WrapInt64(x: int): (r: Int64)
    ensures (r - x) % TwoTo64 == 0
  {
    var m := (x + 0x8000_0000_0000_0000) % TwoTo64;
    m - 0x8000_0000_0000_0000
  }

  /** `TicksToTimeSpan`: the `TimeSpan` of `ticks * 149998` .NET ticks, the product wrapping as a `long`. */
  function TicksToTimeSpan(ticks: Int64): (timeSpanTicks: Int64)
    ensures (timeSpanTicks - ticks * 149998) % TwoTo64 == 0
  {
    WrapInt64(ticks * 149998)
  }

  /** Without overflow the scaling is exact. */
  lemma TicksToTimeSpanExact(ticks: Int64)
    requires -0x8000_0000_0000_0000 <= ticks * 149998 < 0x8000_0000_0000_0000
    ensures TicksToTimeSpan(ticks) == ticks * 149998
  {
  }

  /** Scaling preserves the order of tick counts that do not overflow. */
  lemma TicksToTimeSpanMonotone(a: Int64, b: Int64)
    requires -0x8000_0000_0000_0000 <= a * 149998 < 0x8000_0000_0000_0000
    requires -0x8000_0000_0000_0000 <= b * 149998 < 0x8000_0000_0000_0000
    requires a <= b
    ensures TicksToTimeSpan(a) <= TicksToTimeSpan(b)
  {
    TicksToTimeSpanExact(a);
    TicksToTimeSpanExact(b);
  }

  // ---------------------------------------------------------------------------
  // Links

  const MapUrlPrefix: string := "https://tempus.xyz/maps/"
  const RecordUrlPrefix: string := "https://tempus.xyz/records/"
  const PlayerUrlPrefix: string := "https://tempus.xyz/players/"
  const DemoUrlPrefix: string := "https://tempus.xyz/demos/"
  const ServerUrlPrefix: string := "https://tempus.xyz/servers/"
  const YoutubeUrlPrefix: string := "https://youtube.com/watch?v="

  /** `GetMapUrl`: the map page, the name following the prefix unchanged. */
  function GetMapUrl(name: string): (url: string)
    ensures |url| == |MapUrlPrefix| + |name|
    ensures url[..|MapUrlPrefix|] == MapUrlPrefix && url[|MapUrlPrefix|..] == name
  {
    MapUrlPrefix + name
  }

  /** `GetRecordUrl`: the record page, the id readable after the prefix. */
  function GetRecordUrl(id: Int32): (url: string)
    ensures LinksTo(RecordUrlPrefix, url, id)
  {
    IdUrlRoundTrip(RecordUrlPrefix, id);
    RecordUrlPrefix + IntToString(id)
  }

  /** `GetPlayerUrl`: the player page, the id readable after the prefix. */
  function GetPlayerUrl(id: Int32): (url: string)
    ensures LinksTo(PlayerUrlPrefix, url, id)
  {
    IdUrlRoundTrip(PlayerUrlPrefix, id);
    PlayerUrlPrefix + IntToString(id)
  }

  /** `GetDemoUrl`: the demo page, the id readable after the prefix. */
  function GetDemoUrl(id: Int32): (url: string)
    ensures LinksTo(DemoUrlPrefix, url, id)
  {
    IdUrlRoundTrip(DemoUrlPrefix, id);
    DemoUrlPrefix + IntToString(id)
  }

  /** `GetServerUrl`: the server page, the id readable after the prefix. */
  function GetServerUrl(id: Int32): (url: string)
    ensures LinksTo(ServerUrlPrefix, url, id)
  {
    IdUrlRoundTrip(ServerUrlPrefix, id);
    ServerUrlPrefix + IntToString(id)
  }

  /** `GetYoutubeUrl`: the video page, the video id following the prefix unchanged. */
  function GetYoutubeUrl(id: string): (url: string)
    ensures |url| == |YoutubeUrlPrefix| + |id|
    ensures url[..|YoutubeUrlPrefix|] == YoutubeUrlPrefix && url[|YoutubeUrlPrefix|..] == id
  {
    YoutubeUrlPrefix + id
  }

  /** `url` is `prefix` followed by the decimal string of `id`. */
  predicate LinksTo(prefix: string, url: string, id: int)
  {
    |url| > |prefix| && url[..|prefix|] == prefix && Denotes(url[|prefix|..], id)
  }

  /** A link to an id is its fixed prefix followed by the id in decimal, which reads back as the id. */
  lemma IdUrlRoundTrip(prefix: string, id: Int32)
    ensures LinksTo(prefix, prefix + IntToString(id), id)
  {
    var url := prefix + IntToString(id);
    IntToStringDenotes(id);
    assert url[|prefix|..] == IntToString(id);
  }

  /** A link to an id is exactly the prefix followed by `id.ToString()`. */
  lemma LinksToExactly(prefix: string, url: string, id: int)
    ensures LinksTo(prefix, url, id) <==> url == prefix + IntToString(id)
  {
    var s := IntToString(id);
    if LinksTo(prefix, url, id) {
      DenotesExactly(url[|prefix|..], id);
      assert url == url[..|prefix|] + url[|prefix|..];
    }
    if url == prefix + s {
      assert url[|prefix|..] == s;
      assert url[..|prefix|] == prefix;
      IntToStringDenotes(id);
    }
  }

  /** Each id link builder gives distinct ids distinct links. */
  lemma IdUrlsDistinct(a: Int32, b: Int32)
    requires a != b
    ensures GetRecordUrl(a) != GetRecordUrl(b)
    ensures GetPlayerUrl(a) != GetPlayerUrl(b)
    ensures GetDemoUrl(a) != GetDemoUrl(b)
    ensures GetServerUrl(a) != GetServerUrl(b)
  {
  }

  /** Distinct names give distinct map links and distinct video links. */
  lemma NameUrlsDistinct(a: string, b: string)
    requires a != b
    ensures GetMapUrl(a) != GetMapUrl(b) && GetYoutubeUrl(a) != GetYoutubeUrl(b)
  {
  }

  /** Examples: the two classes with letters, and another id. */
  lemma GetClassExamples()
    ensures GetClass(4) == "D" && GetClass(3) == "S" && GetClass(12) == "12" && GetClass(-5) == "-5"
  {
    assert NatToString(12) == NatToString(1) + [DigitChar(2)];
  }
}
