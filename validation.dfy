/**
 * The input checks of the add handler and the shared-secret comparison:
 * the dotted-quad shape test on the posted IP, the label filter, and the
 * token test used both at login and on every protected route.
 */
module Validation {
  import opened Wrappers
  import opened Text
  import opened Decimal

  /** One group of the IP pattern: one to three ASCII digits. */
  predicate IsOctetText(p: string) { 1 <= |p| <= 3 && AllDigits(p) }

  /** The whole string is four dot-separated groups of one to three digits. */
  predicate IpShape(s: string)
  {
    var parts := Split(s, '.');
    |parts| == 4 && forall i :: 0 <= i < 4 ==> IsOctetText(parts[i])
  }

  /** An IP passing the check is the four groups written with dots between them. */
  lemma IpShapeParts(s: string)
    requires IpShape(s)
    ensures var p := Split(s, '.'); s == p[0] + "." + p[1] + "." + p[2] + "." + p[3]
  {
    var p := Split(s, '.');
    JoinSplit(s, '.');
    JoinFour(p);
  }

  lemma JoinFour(p: seq<string>)
    requires |p| == 4
    ensures Join(p, '.') == p[0] + "." + p[1] + "." + p[2] + "." + p[3]
  {
    var t1, t2 := p[1..], p[1..][1..];
    assert Join(t2[1..], '.') == p[3];
    assert Join(t2, '.') == p[2] + "." + p[3];
    assert Join(t1, '.') == p[1] + "." + (p[2] + "." + p[3]);
  }

  /** Any four groups of one to three digits joined by dots pass the check. */
  lemma DottedQuadIsIpShape(a: string, b: string, c: string, d: string)
    requires IsOctetText(a) && IsOctetText(b) && IsOctetText(c) && IsOctetText(d)
    ensures IpShape(a + "." + b + "." + c + "." + d)
  {
    var parts := [a, b, c, d];
    assert forall i :: 0 <= i < 4 ==> '.' !in parts[i] by {
      forall i, k | 0 <= i < 4 && 0 <= k < |parts[i]| ensures parts[i][k] != '.' {
        assert IsDigit(parts[i][k]);
      }
    }
    assert Join(parts[1..][1..][1..], '.') == d;
    assert Join(parts[1..][1..], '.') == c + "." + d;
    assert Join(parts[1..], '.') == b + "." + c + "." + d;
    assert Join(parts, '.') == a + "." + b + "." + c + "." + d;
    SplitJoin(parts, '.');
  }

  /** What the check lets through: seven to fifteen characters, digits and dots only, ending in a digit. */
  lemma IpShapeChars(s: string)
    requires IpShape(s)
    ensures 7 <= |s| <= 15
    ensures forall i :: 0 <= i < |s| ==> IsDigit(s[i]) || s[i] == '.'
    ensures IsDigit(s[|s| - 1])
  {
    var p := Split(s, '.');
    IpShapeParts(s);
    var t := p[0] + "." + p[1] + "." + p[2] + "." + p[3];
    assert forall i :: 0 <= i < |t| ==> IsDigit(t[i]) || t[i] == '.' by {
      forall i | 0 <= i < |t| ensures IsDigit(t[i]) || t[i] == '.' {
        var o0, o1, o2 := |p[0]| + 1, |p[0]| + |p[1]| + 2, |p[0]| + |p[1]| + |p[2]| + 3;
        if i < o0 - 1 { assert t[i] == p[0][i]; }
        else if i == o0 - 1 { assert t[i] == '.'; }
        else if i < o1 - 1 { assert t[i] == p[1][i - o0]; }
        else if i == o1 - 1 { assert t[i] == '.'; }
        else if i < o2 - 1 { assert t[i] == p[2][i - o1]; }
        else if i == o2 - 1 { assert t[i] == '.'; }
        else { assert t[i] == p[3][i - o2]; }
      }
    }
    assert t[|t| - 1] == p[3][|p[3]| - 1];
  }

  /**
   * The check exactly as Python's `re.match` runs the pattern: `$` also
   * matches just before a single trailing newline.
   */
  predicate IpMatchAsWritten(s: string)
  {
    IpShape(s) || (|s| >= 1 && s[|s| - 1] == '\n' && IpShape(s[..|s| - 1]))
  }

  /** The pattern as written accepts an IP with a trailing newline, which the intended check refuses. */
  lemma TrailingNewlineAccepted()
    ensures IpMatchAsWritten("10.0.0.5\n") && !IpShape("10.0.0.5\n")
  {
    DottedQuadIsIpShape("10", "0", "0", "5");
    assert "10.0.0.5\n"[..8] == "10" + "." + "0" + "." + "0" + "." + "5";
    if IpShape("10.0.0.5\n") {
      IpShapeChars("10.0.0.5\n");
    }
  }

  /** The characters the label filter keeps: `A-Za-z0-9_.,# '-`. */
  predicate IsLabelChar(c: char)
  {
    ('A' <= c <= 'Z') || ('a' <= c <= 'z') || ('0' <= c <= '9') ||
    c == '_' || c == '.' || c == ',' || c == '#' || c == ' ' || c == '\'' || c == '-'
  }

  predicate IsCleanLabel(s: string) { forall i :: 0 <= i < |s| ==> IsLabelChar(s[i]) }

  /** The label filter: every character outside the allowed set is removed. */
  function SanitizeLabel(s: string): (r: string)
    ensures IsCleanLabel(r)
    ensures |r| <= |s|
  {
    if s == [] then []
    else if IsLabelChar(s[0]) then [s[0]] + SanitizeLabel(s[1..])
    else SanitizeLabel(s[1..])
  }

  /** Filtering distributes over concatenation: each character is kept or dropped on its own. */
  lemma {:induction false} SanitizeConcat(a: string, b: string)
    ensures SanitizeLabel(a + b) == SanitizeLabel(a) + SanitizeLabel(b)
  {
    if a != [] {
      assert (a + b)[0] == a[0] && (a + b)[1..] == a[1..] + b;
      SanitizeConcat(a[1..], b);
    } else {
      assert a + b == b;
    }
  }

  /** A label made of allowed characters passes the filter unchanged. */
  lemma {:induction false} SanitizeClean(s: string)
    requires IsCleanLabel(s)
    ensures SanitizeLabel(s) == s
  {
    if s != [] {
      SanitizeClean(s[1..]);
    }
  }

  /** The filter is idempotent. */
  lemma SanitizeIdempotent(s: string)
    ensures SanitizeLabel(SanitizeLabel(s)) == SanitizeLabel(s)
  {
    SanitizeClean(SanitizeLabel(s));
  }

  /** A character survives the filter exactly when it was in the input and is allowed. */
  lemma {:induction false} SanitizeMembers(s: string, c: char)
    ensures c in SanitizeLabel(s) <==> c in s && IsLabelChar(c)
  {
    if s != [] {
      SanitizeMembers(s[1..], c);
      assert s == [s[0]] + s[1..];
    }
  }

  /** The process-wide secret: the environment variable's value, or unset (Python's `False`). */
  datatype Token = Unset | Secret(value: string)

  /**
   * `presented == token`, where `presented` is the posted or session value
   * (`None` when absent). With the secret unset nothing ever matches.
   */
  function TokenMatches(presented: Option<string>, token: Token): (r: bool)
    ensures token.Unset? ==> !r
    ensures token.Secret? ==> (r <==> presented == Some(token.value))
  {
    match token
    case Unset => false
    case Secret(v) => presented.Some? && presented.value == v
  }
}
