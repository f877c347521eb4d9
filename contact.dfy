/** The contact composer (assets/main.js, lines 80-108). The submit handler trims
    the three form fields and builds a `mailto:` URI (section 2 of RFC 6068) with a
    `subject` and a `body` header field, both encoded by `encodeURIComponent`.
    `ParseMailto` reads such a URI back as a mail client would, and is the
    reference the composer is proved against. */
module Contact {
  import opened Util
  import opened UriEncoding

  const Email := "michaelcebralclase@gmail.com"
  const Scheme := "mailto:"
  const SubjectPrefix := "[Site] "
  const BodyPrefix := "From: "

  /** The `href` given to the mail link: a mail client reads it as the address
      alone, with no header fields. */
  function MailLinkHref(): (href: string)
    ensures ParseMailto(href) == Some(Mailto(Email, []))
  {
    EmailPlain();
    PlainParses(Email);
    Scheme + Email
  }

  /** White space and line terminators as `String.prototype.trim` strips them
      (WhiteSpace and LineTerminator of ECMA-262, section 12.2 and 12.3). */
  predicate IsTrimmable(c: char)
  {
    var n := c as int;
    // WhiteSpace: TAB, VT, FF, ZWNBSP and the space separators (category Zs)
    || n == 0x09 || n == 0x0B || n == 0x0C || n == 0xFEFF
    || n == 0x20 || n == 0xA0 || n == 0x1680 || 0x2000 <= n <= 0x200A
    || n == 0x202F || n == 0x205F || n == 0x3000
    // LineTerminator: LF, CR, LINE SEPARATOR, PARAGRAPH SEPARATOR
    || n == 0x0A || n == 0x0D || n == 0x2028 || n == 0x2029
  }

  /** Strip leading white space: the result is the suffix of `s` that starts at
      its first other character. */
  function TrimStart(s: string): (r: string)
    ensures |r| <= |s| && r == s[|s| - |r|..]
    ensures r == [] || !IsTrimmable(r[0])
    ensures forall k :: 0 <= k < |s| - |r| ==> IsTrimmable(s[k])
  {
    if s != [] && IsTrimmable(s[0]) then
      var r := TrimStart(s[1..]);
      assert forall k :: 1 <= k < |s| - |r| ==> s[k] == s[1..][k - 1];
      r
    else s
  }

  /** Strip trailing white space: the result is the prefix of `s` that ends at its
      last other character. */
  function TrimEnd(s: string): (r: string)
    ensures |r| <= |s| && r == s[..|r|]
    ensures r == [] || !IsTrimmable(r[|r| - 1])
    ensures forall k :: |r| <= k < |s| ==> IsTrimmable(s[k])
  {
    if s != [] && IsTrimmable(s[|s| - 1]) then
      var r := TrimEnd(s[..|s| - 1]);
      assert forall k :: |r| <= k < |s| - 1 ==> s[k] == s[..|s| - 1][k];
      r
    else s
  }

  /** `s.trim()`: the result neither starts nor ends with white space, and it is
      what is left of `s` once white space is cut from both ends. */
  function Trim(s: string): (r: string)
    ensures r == [] || (!IsTrimmable(r[0]) && !IsTrimmable(r[|r| - 1]))
    ensures exists i, j :: 0 <= i <= j <= |s| && r == s[i..j] && AllTrimmable(s[..i]) && AllTrimmable(s[j..])
  {
    var t := TrimStart(s);
    var r := TrimEnd(t);
    LeadingCut(s);
    TrailingCut(t);
    SliceOfSuffix(s, |s| - |t|, |r|);
    r
  }

  lemma LeadingCut(s: string)
    ensures AllTrimmable(s[..|s| - |TrimStart(s)|])
  {
    var p := s[..|s| - |TrimStart(s)|];
    forall k | 0 <= k < |p| ensures IsTrimmable(p[k]) {
      assert p[k] == s[k];
    }
  }

  lemma TrailingCut(t: string)
    ensures AllTrimmable(t[|TrimEnd(t)|..])
  {
    var q := t[|TrimEnd(t)|..];
    forall k | 0 <= k < |q| ensures IsTrimmable(q[k]) {
      assert q[k] == t[|TrimEnd(t)| + k];
    }
  }

  lemma SliceOfSuffix(s: string, i: nat, n: nat)
    requires i + n <= |s|
    ensures s[i..][..n] == s[i..i + n] && s[i..][n..] == s[i + n..]
  {
  }

  predicate AllTrimmable(s: string)
  {
    forall k :: 0 <= k < |s| ==> IsTrimmable(s[k])
  }

  /** Leading white space in front of a string that starts with another character
      is exactly what `TrimStart` removes. */
  lemma {:induction false} TrimStartDropsWhite(a: string, t: string)
    requires AllTrimmable(a)
    requires t == [] || !IsTrimmable(t[0])
    ensures TrimStart(a + t) == t
  {
    if a == [] {
      assert a + t == t;
    } else {
      var s := a + t;
      assert s[0] == a[0] && s[1..] == a[1..] + t;
      assert AllTrimmable(a[1..]) by {
        forall k | 0 <= k < |a[1..]| ensures IsTrimmable(a[1..][k]) {
          assert a[1..][k] == a[k + 1];
        }
      }
      TrimStartDropsWhite(a[1..], t);
    }
  }

  /** Trailing white space after a string that ends with another character is
      exactly what `TrimEnd` removes. */
  lemma {:induction false} TrimEndDropsWhite(t: string, b: string)
    requires AllTrimmable(b)
    requires t == [] || !IsTrimmable(t[|t| - 1])
    ensures TrimEnd(t + b) == t
  {
    if b == [] {
      assert t + b == t;
    } else {
      var s := t + b;
      var b' := b[..|b| - 1];
      assert s[|s| - 1] == b[|b| - 1] && s[..|s| - 1] == t + b';
      assert AllTrimmable(b') by {
        forall k | 0 <= k < |b'| ensures IsTrimmable(b'[k]) {
          assert b'[k] == b[k];
        }
      }
      TrimEndDropsWhite(t, b');
    }
  }

  /** `Trim` takes exactly the white space off both ends: for any split of `s` into
      white space, a core that neither starts nor ends with white space, and white
      space, the result is that core. */
  lemma TrimIsCore(a: string, m: string, b: string)
    requires AllTrimmable(a) && AllTrimmable(b)
    requires m == [] || (!IsTrimmable(m[0]) && !IsTrimmable(m[|m| - 1]))
    ensures Trim(a + m + b) == m
  {
    if m == [] {
      assert a + m + b == (a + b) + [];
      assert AllTrimmable(a + b) by {
        forall k | 0 <= k < |a + b| ensures IsTrimmable((a + b)[k]) {
          if k < |a| {
            assert (a + b)[k] == a[k];
          } else {
            assert (a + b)[k] == b[k - |a|];
          }
        }
      }
      TrimStartDropsWhite(a + b, []);
    } else {
      assert a + m + b == a + (m + b);
      assert (m + b)[0] == m[0];
      TrimStartDropsWhite(a, m + b);
      TrimEndDropsWhite(m, b);
    }
  }

  /** Trimming twice changes nothing more. */
  lemma TrimIdempotent(s: string)
    ensures Trim(Trim(s)) == Trim(s)
  {
    var t := TrimStart(s);
    var r := TrimEnd(t);
    if r != [] {
      assert r[0] == t[0];
    }
    assert TrimStart(r) == r;
    assert TrimEnd(r) == r;
  }

  /** The decoded `subject` header: the prefix and the trimmed subject field. */
  function SubjectText(subj: string): string
  {
    SubjectPrefix + Trim(subj)
  }

  /** The decoded `body` header: sender line, a blank line, the trimmed message. */
  function BodyText(name: string, msg: string): string
  {
    BodyPrefix + Trim(name) + "\n\n" + Trim(msg)
  }

  /** The URI the submit handler navigates to. A mail client reading it finds the
      fixed recipient and exactly two header fields, `subject` and `body`, whose
      values are the prefixed, trimmed form fields. */
  function ComposeMailto(name: string, subj: string, msg: string): (uri: string)
    ensures ParseMailto(uri)
         == Some(Mailto(Email, [("subject", SubjectText(subj)), ("body", BodyText(name, msg))]))
  {
    EmailPlain();
    MailtoRoundTrip(Email, SubjectText(subj), BodyText(name, msg));
    Scheme + Email + "?subject=" + Encode(SubjectText(subj)) + "&body=" + Encode(BodyText(name, msg))
  }

  /** A `mailto:` URI as a mail client reads it: the recipient and the header
      fields in order, all percent-decoded. */
  datatype Mailto = Mailto(to: string, headers: seq<(string, string)>)

  /** The text before and after the first `c` in `s`, if `s` contains one. */
  function SplitFirst(s: string, c: char): (r: Option<(string, string)>)
    ensures r.Some? ==> s == r.value.0 + [c] + r.value.1 && c !in r.value.0
    ensures r.None? ==> c !in s
  {
    if s == [] then None
    else if s[0] == c then Some(([], s[1..]))
    else match SplitFirst(s[1..], c)
      case None => None
      case Some(p) => Some(([s[0]] + p.0, p.1))
  }

  /** The pieces of `s` between occurrences of `c`: at least one, none containing `c`. */
  function SplitOn(s: string, c: char): (parts: seq<string>)
    ensures |parts| >= 1
    ensures forall k :: 0 <= k < |parts| ==> c !in parts[k]
    decreases |s|
  {
    match SplitFirst(s, c)
    case None => [s]
    case Some(p) => [p.0] + SplitOn(p.1, c)
  }

  /** One `hfname=hfvalue` field, both sides decoded. */
  function ParseField(field: string): Option<(string, string)>
  {
    match SplitFirst(field, '=')
    case None => None
    case Some(p) =>
      if Decode(p.0).Some? && Decode(p.1).Some? then Some((Decode(p.0).value, Decode(p.1).value)) else None
  }

  function ParseFields(fields: seq<string>): Option<seq<(string, string)>>
  {
    if fields == [] then Some([])
    else
      var rest := ParseFields(fields[1..]);
      if ParseField(fields[0]).Some? && rest.Some? then Some([ParseField(fields[0]).value] + rest.value) else None
  }

  /** `mailto:` then the recipient, then optionally `?` and `&`-separated fields. */
  function ParseMailto(uri: string): Option<Mailto>
  {
    if !(|Scheme| <= |uri| && uri[..|Scheme|] == Scheme) then None
    else
      var rest := uri[|Scheme|..];
      match SplitFirst(rest, '?')
      case None => (match Decode(rest) case Some(to) => Some(Mailto(to, [])) case None => None)
      case Some(p) =>
        var to := Decode(p.0);
        var hs := ParseFields(SplitOn(p.1, '&'));
        if to.Some? && hs.Some? then Some(Mailto(to.value, hs.value)) else None
  }

  lemma {:induction false} SplitFirstAt(a: string, c: char, b: string)
    requires c !in a
    ensures SplitFirst(a + [c] + b, c) == Some((a, b))
  {
    var s := a + [c] + b;
    if a == [] {
      assert s[1..] == b;
    } else {
      SplitFirstAt(a[1..], c, b);
      assert s[1..] == a[1..] + [c] + b;
      assert [a[0]] + a[1..] == a;
    }
  }

  lemma SplitFirstNone(s: string, c: char)
    requires c !in s
    ensures SplitFirst(s, c) == None
  {
  }

  /** An encoded field value holds none of the URI delimiters `?`, `&`, `=`, `#`. */
  lemma EncodeFree(s: string)
    ensures '&' !in Encode(s) && '=' !in Encode(s) && '?' !in Encode(s) && '#' !in Encode(s)
  {
    EncodeWellFormed(s);
    EncodedHasNoDelimiters(Encode(s));
  }

  /** A recipient without `?` or `%` and nothing after it is read back verbatim,
      with no header fields. */
  lemma PlainParses(addr: string)
    requires '?' !in addr && '%' !in addr
    ensures ParseMailto(Scheme + addr) == Some(Mailto(addr, []))
  {
    var uri := Scheme + addr;
    assert uri[..|Scheme|] == Scheme;
    assert uri[|Scheme|..] == addr;
    SplitFirstNone(addr, '?');
    DecodePlain(addr);
  }

  /** A recipient without `?` or `%` is read back verbatim, and what follows the
      `?` is split into `&`-separated fields. */
  lemma RecipientParses(addr: string, query: string)
    requires '?' !in addr && '%' !in addr
    ensures ParseMailto(Scheme + (addr + ['?'] + query))
         == match ParseFields(SplitOn(query, '&'))
            case Some(hs) => Some(Mailto(addr, hs))
            case None => None
  {
    var uri := Scheme + (addr + ['?'] + query);
    assert uri[..|Scheme|] == Scheme;
    assert uri[|Scheme|..] == addr + ['?'] + query;
    SplitFirstAt(addr, '?', query);
    DecodePlain(addr);
  }

  /** A `name=value` field with a plain name is read back as the name and the
      decoded value. */
  lemma FieldParses(n: string, v: string)
    requires IsName(n) && '&' !in v && Decode(v).Some?
    ensures ParseField(n + "=" + v) == Some((n, Decode(v).value))
    ensures '&' !in n + "=" + v
  {
    NamePlain(n);
    SplitFirstAt(n, '=', v);
  }

  lemma SplitTwo(f1: string, f2: string)
    requires '&' !in f1 && '&' !in f2
    ensures SplitOn(f1 + "&" + f2, '&') == [f1, f2]
  {
    SplitFirstAt(f1, '&', f2);
    SplitFirstNone(f2, '&');
  }

  /** Two `name=value` fields joined by `&` are read back as those two headers. */
  lemma TwoFieldsParse(n1: string, v1: string, n2: string, v2: string)
    requires IsName(n1) && IsName(n2)
    requires '&' !in v1 && '&' !in v2
    requires Decode(v1).Some? && Decode(v2).Some?
    ensures ParseFields(SplitOn(n1 + "=" + v1 + "&" + n2 + "=" + v2, '&'))
         == Some([(n1, Decode(v1).value), (n2, Decode(v2).value)])
  {
    var f1 := n1 + "=" + v1;
    var f2 := n2 + "=" + v2;
    FieldParses(n1, v1);
    FieldParses(n2, v2);
    assert n1 + "=" + v1 + "&" + n2 + "=" + v2 == f1 + "&" + f2;
    SplitTwo(f1, f2);
    ParseTwo(f1, f2);
  }

  lemma ParseTwo(f1: string, f2: string)
    requires ParseField(f1).Some? && ParseField(f2).Some?
    ensures ParseFields([f1, f2]) == Some([ParseField(f1).value, ParseField(f2).value])
  {
    assert [f1, f2][1..] == [f2];
    assert [f2][1..] == [];
    assert ParseFields([]) == Some([]);
    assert [ParseField(f2).value] + [] == [ParseField(f2).value];
    assert ParseFields([f2]) == Some([ParseField(f2).value]);
    assert [ParseField(f1).value] + [ParseField(f2).value] == [ParseField(f1).value, ParseField(f2).value];
  }

  predicate IsName(n: string)
  {
    forall k :: 0 <= k < |n| ==> IsAlpha(n[k])
  }

  /** A header name made of letters is plain text: no delimiter, and it decodes
      as itself. */
  lemma NamePlain(n: string)
    requires IsName(n)
    ensures Decode(n) == Some(n)
    ensures '&' !in n && '=' !in n
  {
    DecodePlain(n);
  }

  lemma EmailPlain()
    ensures '?' !in Email && '%' !in Email
  {
  }

  /** The composed URI regrouped as scheme, recipient, `?` and the query. */
  lemma QueryShape(addr: string, es: string, eb: string)
    ensures Scheme + addr + "?subject=" + es + "&body=" + eb
         == Scheme + (addr + ['?'] + ("subject" + "=" + es + "&" + "body" + "=" + eb))
  {
    assert "?subject=" == ['?'] + "subject" + "=";
    assert "&body=" == "&" + "body" + "=";
  }

  /** Two values encoded under two plain names after a plain recipient are read
      back as that recipient and those two headers. */
  lemma {:induction false} EncodedFieldsParse(addr: string, n1: string, v1: string, n2: string, v2: string)
    requires '?' !in addr && '%' !in addr && IsName(n1) && IsName(n2)
    ensures ParseMailto(Scheme + (addr + ['?'] + (n1 + "=" + Encode(v1) + "&" + n2 + "=" + Encode(v2))))
         == Some(Mailto(addr, [(n1, v1), (n2, v2)]))
  {
    EncodeFree(v1);
    EncodeFree(v2);
    DecodeEncode(v1);
    DecodeEncode(v2);
    TwoFieldsParse(n1, Encode(v1), n2, Encode(v2));
    RecipientParses(addr, n1 + "=" + Encode(v1) + "&" + n2 + "=" + Encode(v2));
  }

  /** Any two header values, once encoded into the composer's URI shape, are read
      back unchanged, in order, under the names `subject` and `body`. */
  lemma MailtoRoundTrip(addr: string, subject: string, body: string)
    requires '?' !in addr && '%' !in addr
    ensures ParseMailto(Scheme + addr + "?subject=" + Encode(subject) + "&body=" + Encode(body))
         == Some(Mailto(addr, [("subject", subject), ("body", body)]))
  {
    assert IsName("subject") && IsName("body");
    QueryShape(addr, Encode(subject), Encode(body));
    EncodedFieldsParse(addr, "subject", subject, "body", body);
  }
}
