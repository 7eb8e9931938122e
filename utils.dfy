/** `get_host_and_port` of vcr/utils.py: the host and port a raw request is bound
    for, taken from its `Host` header. The header parser is a parameter (a function
    from the header block to the value of its `Host` header, if any); Python's
    `str.split(sep, 1)` and `int` are written out below. */
module HostAndPort {
  import opened Wrappers

  /** `sep` starts at position `j` of `s`. */
  predicate OccursAt(s: string, sep: string, j: int) {
    0 <= j && j + |sep| <= |s| && s[j..j + |sep|] == sep
  }

  /** `sep in s` */
  predicate Occurs(s: string, sep: string) {
    exists j :: 0 <= j <= |s| - |sep| && OccursAt(s, sep, j)
  }

  /** `s.find(sep)`: where the first occurrence of `sep` in `s` starts, if any. */
  function Find(s: string, sep: string): (r: Option<nat>)
    requires |sep| > 0
    ensures r.Some? ==> OccursAt(s, sep, r.value)
    ensures r.Some? ==> forall j :: 0 <= j < r.value ==> !OccursAt(s, sep, j)
    ensures r.None? <==> !Occurs(s, sep)
  {
    if |s| < |sep| then None
    else if s[..|sep|] == sep then
      assert OccursAt(s, sep, 0);
      Some(0)
    else
      var rest := Find(s[1..], sep);
      assert forall j :: 0 < j ==> (OccursAt(s, sep, j) <==> OccursAt(s[1..], sep, j - 1)) by {
        forall j | 0 < j ensures OccursAt(s, sep, j) <==> OccursAt(s[1..], sep, j - 1) {
          if j + |sep| <= |s| {
            assert s[1..][j - 1..j - 1 + |sep|] == s[j..j + |sep|];
          }
        }
      }
      match rest
      case Some(i) => Some(i + 1)
      case None => None
  }

  /** `s.split(sep, 1)`: `[s]` when `sep` does not occur, otherwise the text before
      and the text after the first occurrence. */
  function Split1(s: string, sep: string): (parts: seq<string>)
    requires |sep| > 0
    ensures |parts| == 1 <==> !Occurs(s, sep)
    ensures |parts| == 1 ==> parts == [s]
    ensures |parts| == 2 ==> parts[0] + sep + parts[1] == s
    ensures |parts| == 2 ==> forall j :: 0 <= j < |parts[0]| ==> !OccursAt(s, sep, j)
    ensures |parts| == 2 ==> !Occurs(parts[0], sep)
    ensures |parts| == 1 || |parts| == 2
  {
    match Find(s, sep)
    case None => [s]
    case Some(i) =>
      assert s[..i] + sep + s[i + |sep|..] == s by {
        assert s == s[..i] + s[i..i + |sep|] + s[i + |sep|..];
      }
      forall j | 0 <= j <= i - |sep| ensures !OccursAt(s[..i], sep, j) {
        assert !OccursAt(s, sep, j);
        assert s[..i][j..j + |sep|] == s[j..j + |sep|];
      }
      [s[..i], s[i + |sep|..]]
  }

  predicate IsDigit(c: char) {
    '0' <= c <= '9'
  }

  predicate AllDigits(s: string) {
    forall i :: 0 <= i < |s| ==> IsDigit(s[i])
  }

  /** The number a string of decimal digits denotes. */
  function DigitsValue(s: string): nat
    requires AllDigits(s)
  {
    if s == [] then 0
    else DigitsValue(s[..|s| - 1]) * 10 + (s[|s| - 1] as int - '0' as int)
  }

  /** Python's `int(s)` restricted to an optional sign followed by one or more
      decimal digits; `None` where Python raises `ValueError`. */
  function ParseInt(s: string): (r: Option<int>)
    ensures r.Some? ==> |s| > 0 && (IsDigit(s[0]) || s[0] == '-' || s[0] == '+')
    ensures r.Some? ==> forall i :: 0 < i < |s| ==> IsDigit(s[i])
    ensures r.Some? && r.value < 0 ==> s[0] == '-'
    ensures |s| > 0 && AllDigits(s) ==> r == Some(DigitsValue(s))
  {
    if |s| > 0 && (s[0] == '-' || s[0] == '+') then
      var digits := s[1..];
      if |digits| > 0 && AllDigits(digits) then
        var magnitude: int := DigitsValue(digits);
        Some(if s[0] == '-' then -magnitude else magnitude)
      else None
    else if |s| > 0 && AllDigits(s) then Some(DigitsValue(s))
    else None
  }

  /** The decimal digits of `n`, most significant first. */
  function NatDigits(n: nat): (s: string)
    ensures |s| > 0 && AllDigits(s)
  {
    var last := ('0' as int + n % 10) as char;
    if n < 10 then [last] else NatDigits(n / 10) + [last]
  }

  /** Python's `str(n)` for an integer: a minus sign for a negative number. */
  function Show(n: int): string {
    if n < 0 then "-" + NatDigits(-n) else NatDigits(n)
  }

  lemma {:induction false} NatDigitsValue(n: nat)
    ensures DigitsValue(NatDigits(n)) == n
  {
    var s := NatDigits(n);
    if n >= 10 {
      NatDigitsValue(n / 10);
      assert s[..|s| - 1] == NatDigits(n / 10);
    }
  }

  /** `int(str(n)) == n`: parsing undoes printing. */
  lemma ParseShow(n: int)
    ensures ParseInt(Show(n)) == Some(n)
  {
    if n < 0 {
      assert Show(n)[1..] == NatDigits(-n);
      NatDigitsValue(-n);
    } else {
      NatDigitsValue(n);
    }
  }

  /** A string none of whose characters is a colon contains no colon. */
  lemma NoColon(s: string)
    requires forall i :: 0 <= i < |s| ==> s[i] != ':'
    ensures !Occurs(s, ":")
  {
    forall j | 0 <= j < |s| ensures !OccursAt(s, ":", j) {
      assert s[j..j + 1] == [s[j]];
    }
  }

  /** The result of `get_host_and_port`. */
  datatype HostPort = HostPort(host: string, port: int)

  /** The part of `get_host_and_port` after the header lookup: split the `Host`
      header at its first colon and parse the rest as the port; when there is no
      colon, or the rest is no integer, fall back to the whole header and port 80. */
  function FromHostHeader(hostHeader: string): (r: HostPort)
    ensures || r == HostPort(hostHeader, 80)
            || (&& |r.host| < |hostHeader| && hostHeader[..|r.host|] == r.host
                && hostHeader[|r.host|] == ':' && !Occurs(r.host, ":")
                && ParseInt(hostHeader[|r.host| + 1..]) == Some(r.port))
  {
    var parts := Split1(hostHeader, ":");
    if |parts| == 2 && ParseInt(parts[1]).Some? then HostPort(parts[0], ParseInt(parts[1]).value)
    else HostPort(hostHeader, 80)
  }

  /** `get_host_and_port(raw_message)`, with `hostOf` the value of the `Host`
      header in a header block. A message with no line break fails with
      `ValueError`; only what follows the first line break is read as headers, and
      a missing `Host` header reads as `":"`. */
  function GetHostAndPort(rawMessage: string, hostOf: string -> Option<string>): (r: Result<HostPort>)
    ensures r.Err? <==> !Occurs(rawMessage, "\r\n")
    ensures r.Err? ==> r.error == ValueError
  {
    var lines := Split1(rawMessage, "\r\n");
    if |lines| != 2 then Err(ValueError)
    else Ok(FromHostHeader(hostOf(lines[1]).GetOr(":")))
  }

  /** The first colon of a header `h + ":" + p` whose `h` has no colon is the one
      after `h`. */
  lemma SplitAfterHost(h: string, p: string)
    requires !Occurs(h, ":")
    ensures Split1(h + ":" + p, ":") == [h, p]
  {
    var s := h + ":" + p;
    assert OccursAt(s, ":", |h|);
    var parts := Split1(s, ":");
    if |parts[0]| < |h| {
      assert OccursAt(h, ":", |parts[0]|) by {
        assert s[|parts[0]|] == ':';
        assert h[|parts[0]|..|parts[0]| + 1] == s[|parts[0]|..|parts[0]| + 1];
      }
    }
    assert parts[0] == h;
    assert parts[1] == s[|h| + 1..] == p;
  }

  /** `Host: h:p` with a port that parses gives `(h, int(p))`. */
  lemma HostWithPort(h: string, p: string)
    requires !Occurs(h, ":") && ParseInt(p).Some?
    ensures FromHostHeader(h + ":" + p) == HostPort(h, ParseInt(p).value)
  {
    SplitAfterHost(h, p);
  }

  /** `Host: h:n` for any integer `n` gives `(h, n)`. */
  lemma HostWithShownPort(h: string, n: int)
    requires !Occurs(h, ":")
    ensures FromHostHeader(h + ":" + Show(n)) == HostPort(h, n)
  {
    ParseShow(n);
    HostWithPort(h, Show(n));
  }

  /** A `Host` header with no colon is the host, on port 80. */
  lemma HostWithoutColon(h: string)
    requires !Occurs(h, ":")
    ensures FromHostHeader(h) == HostPort(h, 80)
  {
  }

  /** A `Host` header whose text after the first colon is no integer gives the
      whole header, colon included, on port 80, not the part before the colon. */
  lemma HostWithBadPort(h: string, p: string)
    requires !Occurs(h, ":") && ParseInt(p).None?
    ensures FromHostHeader(h + ":" + p) == HostPort(h + ":" + p, 80)
  {
    SplitAfterHost(h, p);
  }

  /** The port is 80 or the integer written after the first colon of the `Host`
      header. */
  lemma PortIsDefaultOrParsed(hostHeader: string)
    ensures || FromHostHeader(hostHeader).port == 80
            || exists i :: && 0 <= i < |hostHeader| && hostHeader[i] == ':'
                           && (forall j :: 0 <= j < i ==> hostHeader[j] != ':')
                           && ParseInt(hostHeader[i + 1..]) == Some(FromHostHeader(hostHeader).port)
  {
    var r := FromHostHeader(hostHeader);
    if r != HostPort(hostHeader, 80) {
      var i := |r.host|;
      forall j | 0 <= j < i ensures hostHeader[j] != ':' {
        assert hostHeader[j] == r.host[j];
        assert r.host[j..j + 1] == [r.host[j]];
        assert !OccursAt(r.host, ":", j);
      }
      assert ParseInt(hostHeader[i + 1..]) == Some(r.port);
    }
  }

  /** A `Host` header that is just `":"` gives `(":", 80)`: it splits into two
      empty parts, and the empty port is no integer. */
  lemma ColonOnlyHost()
    ensures FromHostHeader(":") == HostPort(":", 80)
  {
    assert !Occurs("", ":");
    HostWithBadPort("", "");
    assert "" + ":" + "" == ":";
  }

  /** A missing `Host` header reads as `":"`, so it gives `(":", 80)`, the same as
      a header that is just `":"`. */
  lemma MissingHost(rawMessage: string, hostOf: string -> Option<string>)
    requires Occurs(rawMessage, "\r\n")
    requires hostOf(Split1(rawMessage, "\r\n")[1]) == None
    ensures GetHostAndPort(rawMessage, hostOf) == Ok(HostPort(":", 80))
  {
    ColonOnlyHost();
  }

  /** Only what follows the first line break is read: a message made of a first
      line, a line break and a header block gets its host and port from the
      `Host` header of that block. */
  lemma HeadersFollowFirstLine(line: string, headers: string, hostOf: string -> Option<string>)
    requires !Occurs(line, "\r\n")
    ensures GetHostAndPort(line + "\r\n" + headers, hostOf) == Ok(FromHostHeader(hostOf(headers).GetOr(":")))
  {
    var s := line + "\r\n" + headers;
    assert OccursAt(s, "\r\n", |line|);
    var parts := Split1(s, "\r\n");
    var n := |parts[0]|;
    forall j | 0 <= j < |line| ensures !OccursAt(s, "\r\n", j) {
      if j + 2 <= |line| {
        assert s[j..j + 2] == line[j..j + 2];
        assert !OccursAt(line, "\r\n", j);
      } else {
        assert s[j..j + 2][1] == '\r';
      }
    }
    assert OccursAt(s, "\r\n", n) by {
      assert s[n..n + 2] == (parts[0] + "\r\n" + parts[1])[n..n + 2];
    }
    assert n == |line|;
    assert parts[1] == s[|line| + 2..] == headers;
  }

  /** `int("8443") == 8443`, digit by digit. */
  lemma Parse8443()
    ensures ParseInt("8443") == Some(8443)
  {
    assert "8"[..0] == "" && "84"[..1] == "8" && "844"[..2] == "84" && "8443"[..3] == "844";
    assert DigitsValue("8") == 8;
    assert DigitsValue("84") == 84;
    assert DigitsValue("844") == 844;
    assert DigitsValue("8443") == 8443;
  }

  /** `Host: example.com:8443` gives `("example.com", 8443)`. */
  lemma ExampleWithPort()
    ensures FromHostHeader("example.com:8443") == HostPort("example.com", 8443)
  {
    var h := "example.com";
    assert forall i :: 0 <= i < |h| ==> h[i] != ':';
    NoColon(h);
    Parse8443();
    HostWithPort(h, "8443");
    assert h + ":" + "8443" == "example.com:8443";
  }

  /** `Host: a:b:c` gives `("a:b:c", 80)`: the split is at the first colon only. */
  lemma ExampleTwoColons()
    ensures FromHostHeader("a:b:c") == HostPort("a:b:c", 80)
  {
    NoColon("a");
    assert !AllDigits("b:c") by {
      assert !IsDigit("b:c"[0]);
    }
    HostWithBadPort("a", "b:c");
    assert "a" + ":" + "b:c" == "a:b:c";
  }

  /** `Host: example.com` gives `("example.com", 80)`. */
  lemma ExampleWithoutPort()
    ensures FromHostHeader("example.com") == HostPort("example.com", 80)
  {
    var h := "example.com";
    assert forall i :: 0 <= i < |h| ==> h[i] != ':';
    NoColon(h);
    HostWithoutColon(h);
  }

  /** `Host: example.com:` gives `("example.com:", 80)`: an empty port is no
      integer. */
  lemma ExampleEmptyPort()
    ensures FromHostHeader("example.com:") == HostPort("example.com:", 80)
  {
    var h := "example.com";
    assert forall i :: 0 <= i < |h| ==> h[i] != ':';
    NoColon(h);
    HostWithBadPort(h, "");
    assert h + ":" + "" == "example.com:";
  }
}
