/**
 * Stand-ins for the ECMAScript global functions `decodeURI` and
 * `decodeURIComponent`: percent-decoding of `%XX` escapes (section 2.1 of
 * RFC 3986). A malformed escape raises URIError, modelled as `None`.
 */
module Uri {

  import opened Wrappers

  function HexDigit(c: char): (d: Option<nat>)
    ensures d.Some? ==> d.value < 16
  {
    if '0' <= c <= '9' then Some(c as int - '0' as int)
    else if 'a' <= c <= 'f' then Some(c as int - 'a' as int + 10)
    else if 'A' <= c <= 'F' then Some(c as int - 'A' as int + 10)
    else None
  }

  /** The characters whose escapes `decodeURI` leaves in place: the URI reserved set plus `#`. */
  const UriReservedAndHash: set<char> := {';', '/', '?', ':', '@', '&', '=', '+', '$', ',', '#'}

  /**
   * Percent-decoding that leaves the escape of any character in `keep` as it
   * was written.
   */
  function Decode(s: string, keep: set<char>): Option<string>
    decreases |s|
  {
    if s == [] then Some([])
    else if s[0] != '%' then
      match Decode(s[1..], keep)
      case None => None
      case Some(t) => Some([s[0]] + t)
    else if |s| < 3 then None
    else
      match (HexDigit(s[1]), HexDigit(s[2]))
      case (Some(high), Some(low)) =>
        var code := 16 * high + low;
        if code >= 128 then None
        else (
          match Decode(s[3..], keep)
          case None => None
          case Some(t) => Some((if code as char in keep then s[..3] else [code as char]) + t))
      case _ => None
  }

  /** `decodeURI`: rejects exactly what `decodeURIComponent` rejects, and leaves plain text alone. */
  function DecodeUri(s: string): (r: Option<string>)
    ensures r.None? <==> DecodeUriComponent(s).None?
    ensures '%' !in s ==> r == Some(s)
  {
    DecodeFailsAlike(s, UriReservedAndHash, {});
    if '%' !in s then DecodePlainText(s, UriReservedAndHash); Decode(s, UriReservedAndHash)
    else Decode(s, UriReservedAndHash)
  }

  /** `decodeURIComponent`: leaves plain text alone. */
  function DecodeUriComponent(s: string): (r: Option<string>)
    ensures '%' !in s ==> r == Some(s)
  {
    if '%' !in s then DecodePlainText(s, {}); Decode(s, {})
    else Decode(s, {})
  }

  /**
   * An escaped `/` between plain texts is decoded, unless `/` is among the
   * kept characters, as it is for `decodeURI`.
   */
  lemma EscapedSlash(a: string, rest: string, keep: set<char>)
    requires '%' !in a && '%' !in rest
    ensures Decode(a + "%2F" + rest, keep) == Some(a + (if '/' in keep then "%2F" else "/") + rest)
  {
    EscapedSlashDecoded(rest, keep);
    DecodePlainPrefix(a, "%2F" + rest, keep);
    assert a + "%2F" + rest == a + ("%2F" + rest);
    var slash := if '/' in keep then "%2F" else "/";
    assert a + (slash + rest) == a + slash + rest;
  }

  /** `decodeURIComponent` turns `TV%2FAudio` into `TV/Audio`. */
  lemma EscapedSlashComponentExample()
    ensures DecodeUriComponent("TV%2FAudio") == Some("TV/Audio")
  {
    var a, rest := "TV", "Audio";
    EscapedSlash(a, rest, {});
    assert a + "%2F" + rest == "TV%2FAudio";
    assert a + "/" + rest == "TV/Audio";
  }

  /** `decodeURI` keeps the escape in `TV%2FAudio` as written. */
  lemma EscapedSlashUriExample()
    ensures DecodeUri("TV%2FAudio") == Some("TV%2FAudio")
  {
    var a, rest := "TV", "Audio";
    EscapedSlash(a, rest, UriReservedAndHash);
    assert a + "%2F" + rest == "TV%2FAudio";
  }

  /** The decoding of an escaped `/` in front of plain text. */
  lemma EscapedSlashDecoded(rest: string, keep: set<char>)
    requires '%' !in rest
    ensures Decode("%2F" + rest, keep) == Some((if '/' in keep then "%2F" else "/") + rest)
  {
    var s := "%2F" + rest;
    assert s[0] == '%' && s[1] == '2' && s[2] == 'F' && s[..3] == "%2F" && s[3..] == rest;
    assert HexDigit('2') == Some(2) && HexDigit('F') == Some(15);
    assert (16 * 2 + 15) as char == '/';
    DecodePlainText(rest, keep);
  }

  /** Text without a `%` in front of `b` is copied through. */
  lemma {:induction false} DecodePlainPrefix(a: string, b: string, keep: set<char>)
    requires '%' !in a && Decode(b, keep).Some?
    ensures Decode(a + b, keep) == Some(a + Decode(b, keep).value)
    decreases |a|
  {
    if a == [] {
      assert a + b == b;
      assert a + Decode(b, keep).value == Decode(b, keep).value;
    } else {
      assert a[0] in a;
      assert forall c :: c in a[1..] ==> c in a;
      assert (a + b)[0] == a[0] && (a + b)[1..] == a[1..] + b;
      DecodePlainPrefix(a[1..], b, keep);
      assert [a[0]] + (a[1..] + Decode(b, keep).value) == a + Decode(b, keep).value;
    }
  }

  /** Text without a `%` decodes to itself under either function. */
  lemma {:induction false} DecodePlainText(s: string, keep: set<char>)
    requires '%' !in s
    ensures Decode(s, keep) == Some(s)
    decreases |s|
  {
    if s != [] {
      assert s[0] in s;
      assert forall c :: c in s[1..] ==> c in s;
      DecodePlainText(s[1..], keep);
      assert [s[0]] + s[1..] == s;
    }
  }

  /**
   * `decodeURI` and `decodeURIComponent` raise URIError on exactly the same
   * texts; they differ only in which escapes they keep.
   */
  lemma {:induction false} DecodeFailsAlike(s: string, keep: set<char>, keep': set<char>)
    ensures Decode(s, keep).None? <==> Decode(s, keep').None?
    decreases |s|
  {
    if s != [] {
      if s[0] != '%' {
        DecodeFailsAlike(s[1..], keep, keep');
      } else if |s| >= 3 {
        DecodeFailsAlike(s[3..], keep, keep');
      }
    }
  }
}
