/** The key under which an address's sockets are counted. */
module IpKeys {
  predicate IsDigits(s: string) {
    s != "" && forall i | 0 <= i < |s| :: '0' <= s[i] <= '9'
  }

  predicate IsQuadSplitAt(s: string, i: int, j: int, k: int)
    requires 0 <= i < j < k < |s|
  {
    && s[i] == '.' && s[j] == '.' && s[k] == '.'
    && IsDigits(s[..i]) && IsDigits(s[i + 1..j]) && IsDigits(s[j + 1..k]) && IsDigits(s[k + 1..])
  }

  /** Four runs of digits separated by dots, as the guard's regular expression has it. */
  predicate IsDottedQuad(s: string) {
    exists i, j, k | 0 <= i < j < k < |s| :: IsQuadSplitAt(s, i, j, k)
  }

  const MAPPED := "::ffff:"

  predicate IsMapped(ip: string) {
    MAPPED <= ip && IsDottedQuad(ip[|MAPPED|..])
  }

  function Underscored(s: string): string {
    seq(|s|, i requires 0 <= i < |s| => if s[i] == '.' || s[i] == ':' then '_' else s[i])
  }

  /** The empty string stands for a missing address. */
  function NormalizeIp(ip: string): string {
    if ip == "" then "unknown"
    else
      var loopback := if ip == "::1" then "localhost" else ip;
      Underscored(if IsMapped(loopback) then loopback[|MAPPED|..] else loopback)
  }

  predicate HasNoSeparators(s: string) {
    forall i | 0 <= i < |s| :: s[i] != '.' && s[i] != ':'
  }

  lemma DottedQuadCharacters(s: string)
    requires IsDottedQuad(s)
    ensures s != "" && forall n | 0 <= n < |s| :: s[n] == '.' || '0' <= s[n] <= '9'
  {
    var i, j, k :| 0 <= i < j < k < |s| && IsQuadSplitAt(s, i, j, k);
    forall n | 0 <= n < |s| ensures s[n] == '.' || '0' <= s[n] <= '9' {
      if n < i {
        assert s[n] == s[..i][n];
      } else if i < n < j {
        assert s[n] == s[i + 1..j][n - i - 1];
      } else if j < n < k {
        assert s[n] == s[j + 1..k][n - j - 1];
      } else if k < n {
        assert s[n] == s[k + 1..][n - k - 1];
      }
    }
  }

  /** A dotted quad is neither the loopback nor mapped: it goes in as it is. */
  lemma DottedQuadKey(ip: string)
    requires IsDottedQuad(ip)
    ensures NormalizeIp(ip) == Underscored(ip)
  {
    DottedQuadCharacters(ip);
    hide IsDottedQuad;
    assert MAPPED[0] == ':' && "::1"[0] == ':';
  }

  /** No key contains a separator, so normalizing a key again changes nothing. */
  lemma NormalizeIsIdempotent(ip: string)
    ensures HasNoSeparators(NormalizeIp(ip))
    ensures NormalizeIp(NormalizeIp(ip)) == NormalizeIp(ip)
  {
    var key := NormalizeIp(ip);
    assert key != "" && HasNoSeparators(key) by {
      if ip != "" {
        var loopback := if ip == "::1" then "localhost" else ip;
        if IsMapped(loopback) {
          DottedQuadCharacters(loopback[|MAPPED|..]);
        }
      }
    }
    assert MAPPED[0] == ':';
    assert !(MAPPED <= key);
    assert Underscored(key) == key;
  }

  /** An IPv4 address and its IPv4-mapped form (section 2.5.5.2 of RFC 4291) are counted together. */
  lemma MappedSharesKey(ip: string)
    requires IsDottedQuad(ip)
    ensures NormalizeIp(MAPPED + ip) == NormalizeIp(ip)
  {
    DottedQuadKey(ip);
    hide IsDottedQuad;
    assert (MAPPED + ip)[|MAPPED|..] == ip;
    assert (MAPPED + ip)[2] == 'f';
  }

  /** Different IPv4 addresses are counted apart. */
  lemma DottedQuadsKeepApart(ip1: string, ip2: string)
    requires IsDottedQuad(ip1) && IsDottedQuad(ip2)
    ensures NormalizeIp(ip1) == NormalizeIp(ip2) <==> ip1 == ip2
  {
    DottedQuadCharacters(ip1);
    DottedQuadCharacters(ip2);
    DottedQuadKey(ip1);
    DottedQuadKey(ip2);
    hide IsDottedQuad, NormalizeIp;
    if Underscored(ip1) == Underscored(ip2) {
      assert |ip1| == |Underscored(ip1)| == |ip2|;
      forall n | 0 <= n < |ip1| ensures ip1[n] == ip2[n] {
        assert Underscored(ip1)[n] == Underscored(ip2)[n];
      }
    }
  }

  /** The IPv6 loopback shares its key with no IPv4 address, the IPv4 loopback included. */
  lemma LoopbackStandsAlone(ip: string)
    requires IsDottedQuad(ip)
    ensures NormalizeIp("::1") != NormalizeIp(ip)
  {
    DottedQuadCharacters(ip);
    DottedQuadKey(ip);
    hide IsDottedQuad;
    assert "localhost"[0] == 'l' && MAPPED[0] == ':';
    assert Underscored(ip)[0] != 'l';
  }

  /** Character by character: a mapped address loses its prefix, and each dot and colon becomes an underscore. */
  lemma KeyCharacters(ip: string)
    requires ip != "" && ip != "::1"
    ensures var from := if MAPPED <= ip && IsDottedQuad(ip[7..]) then 7 else 0;
            && |NormalizeIp(ip)| == |ip| - from
            && forall i | 0 <= i < |ip| - from ::
                 NormalizeIp(ip)[i] == if ip[from + i] == '.' || ip[from + i] == ':' then '_' else ip[from + i]
  {
    hide IsDottedQuad;
  }

  /** The two addresses with keys of their own. */
  lemma SpecialKeys()
    ensures NormalizeIp("") == "unknown" && NormalizeIp("::1") == "localhost"
  {
    assert MAPPED[0] == ':' && "localhost"[0] == 'l';
    assert !(MAPPED <= "localhost");
    assert Underscored("localhost") == "localhost";
  }

  const DIGITS := "0123456789"

  lemma DigitIff(c: char)
    ensures '0' <= c <= '9' <==> c in DIGITS
  {
    if '0' <= c <= '9' {
      var i := c as int - '0' as int;
      assert DIGITS[i] == c;
    }
  }

  /** The digits are the ten of ASCII. */
  lemma DigitsIff(s: string)
    ensures IsDigits(s) <==> s != "" && forall i | 0 <= i < |s| :: s[i] in DIGITS
  {
    forall i | 0 <= i < |s| ensures '0' <= s[i] <= '9' <==> s[i] in DIGITS {
      DigitIff(s[i]);
    }
  }

  lemma SplitQuad(s: string) returns (a: string, b: string, c: string, d: string)
    requires IsDottedQuad(s)
    ensures IsDigits(a) && IsDigits(b) && IsDigits(c) && IsDigits(d) && IsJoined(s, a, b, c, d)
  {
    hide IsDigits;
    var i, j, k :| 0 <= i < j < k < |s| && IsQuadSplitAt(s, i, j, k);
    a, b, c, d := s[..i], s[i + 1..j], s[j + 1..k], s[k + 1..];
    assert s == a + "." + b + "." + c + "." + d;
  }

  lemma JoinQuad(s: string, a: string, b: string, c: string, d: string)
    requires IsDigits(a) && IsDigits(b) && IsDigits(c) && IsDigits(d) && IsJoined(s, a, b, c, d)
    ensures IsDottedQuad(s)
  {
    hide IsDigits;
    var i, j, k := |a|, |a| + 1 + |b|, |a| + 1 + |b| + 1 + |c|;
    assert s[..i] == a && s[i + 1..j] == b && s[j + 1..k] == c && s[k + 1..] == d;
    assert IsQuadSplitAt(s, i, j, k);
  }

  /** Exactly four runs of digits joined by dots make a dotted quad. */
  lemma DottedQuadIff(s: string)
    ensures IsDottedQuad(s) <==>
            exists a, b, c, d ::
              IsDigits(a) && IsDigits(b) && IsDigits(c) && IsDigits(d) && IsJoined(s, a, b, c, d)
  {
    hide IsDigits, IsDottedQuad, IsJoined;
    if IsDottedQuad(s) {
      var a, b, c, d := SplitQuad(s);
    }
    if a, b, c, d :| IsDigits(a) && IsDigits(b) && IsDigits(c) && IsDigits(d) && IsJoined(s, a, b, c, d) {
      JoinQuad(s, a, b, c, d);
    }
  }

  predicate IsJoined(s: string, a: string, b: string, c: string, d: string) {
    s == a + "." + b + "." + c + "." + d
  }
}
