/**
  The two cookie readers of Canteen-Automation-System-Website/cart.js: the
  `getCookie` helper inside `prepareOrderData`, which splits the cookie text on
  `"; name="`, and `getCookieValue`, which matches a regular expression. The
  cookie text (`document.cookie`) is an input.
*/
module Cookies {
  import opened Wrappers

  // ------------------------------------------------------------- substrings

  /** `s` holds `sep` at position `i`. */
  predicate OccursAt(s: string, sep: string, i: int) {
    0 <= i && i + |sep| <= |s| && s[i..i + |sep|] == sep
  }

  /** Dropping the first character moves every later occurrence one place left. */
  lemma OccursShift(s: string, sep: string, k: int)
    requires 1 <= k && s != []
    ensures OccursAt(s, sep, k) <==> OccursAt(s[1..], sep, k - 1)
  {
    if k + |sep| <= |s| {
      var t := s[1..];
      var n := |sep|;
      var u, v := t[k - 1..k - 1 + n], s[k..k + n];
      forall m | 0 <= m < n
        ensures u[m] == v[m]
      {
        assert u[m] == s[k + m];
      }
      assert u == v;
    }
  }

  /** `s.indexOf(sep)`: the leftmost position of `sep` in `s`, or -1. */
  function IndexOf(s: string, sep: string): (i: int)
    ensures -1 <= i <= |s|
    ensures i >= 0 ==> OccursAt(s, sep, i)
    ensures forall k :: 0 <= k && (i == -1 || k < i) ==> !OccursAt(s, sep, k)
    decreases |s|
  {
    if |sep| > |s| then -1
    else if s[..|sep|] == sep then 0
    else
      var j := IndexOf(s[1..], sep);
      assert forall k :: 1 <= k ==> (OccursAt(s, sep, k) <==> OccursAt(s[1..], sep, k - 1)) by {
        forall k | 1 <= k
          ensures OccursAt(s, sep, k) <==> OccursAt(s[1..], sep, k - 1)
        {
          OccursShift(s, sep, k);
        }
      }
      if j == -1 then -1 else j + 1
  }

  /**
    `s.split(sep)` for a non-empty separator: the pieces between the
    occurrences of `sep`, found from left to right without overlap.
  */
  function Split(s: string, sep: string): (parts: seq<string>)
    requires |sep| > 0
    ensures |parts| >= 1
    decreases |s|
  {
    var i := IndexOf(s, sep);
    if i == -1 then [s] else [s[..i]] + Split(s[i + |sep|..], sep)
  }

  /** `parts.join(sep)`. */
  function Join(parts: seq<string>, sep: string): string {
    if |parts| <= 1 then (if parts == [] then "" else parts[0])
    else parts[0] + sep + Join(parts[1..], sep)
  }

  /** Splitting and joining again gives back the text: no character is lost. */
  lemma {:induction false} JoinSplit(s: string, sep: string)
    requires |sep| > 0
    ensures Join(Split(s, sep), sep) == s
    decreases |s|
  {
    var i := IndexOf(s, sep);
    if i == -1 {
      assert Split(s, sep) == [s];
      assert |Split(s, sep)| == 1;
    } else {
      var rest := s[i + |sep|..];
      var tail := Split(rest, sep);
      assert Split(s, sep) == [s[..i]] + tail;
      calc {
        Join(Split(s, sep), sep);
        { assert ([s[..i]] + tail)[1..] == tail; }
        s[..i] + sep + Join(tail, sep);
        { JoinSplit(rest, sep); }
        s[..i] + sep + rest;
        { SliceAround(s, i, |sep|); }
        s;
      }
    }
  }

  lemma SliceAround(s: string, i: int, n: nat)
    requires 0 <= i && i + n <= |s|
    ensures s == s[..i] + s[i..i + n] + s[i + n..]
  {
  }

  /** No piece of a split holds the separator. */
  lemma {:induction false} SplitPiecesAvoidSeparator(s: string, sep: string)
    requires |sep| > 0
    ensures forall k :: 0 <= k < |Split(s, sep)| ==> IndexOf(Split(s, sep)[k], sep) == -1
    decreases |s|
  {
    var i := IndexOf(s, sep);
    if i != -1 {
      var rest := s[i + |sep|..];
      SplitPiecesAvoidSeparator(rest, sep);
      var head := s[..i];
      assert IndexOf(head, sep) == -1 by {
        forall k | 0 <= k && k + |sep| <= |head|
          ensures !OccursAt(head, sep, k)
        {
          assert head[k..k + |sep|] == s[k..k + |sep|];
          assert !OccursAt(s, sep, k);
        }
      }
    }
  }

  /** The split has exactly two pieces iff the separator occurs once, as the scan finds it. */
  lemma {:induction false} SplitInTwo(s: string, sep: string)
    requires |sep| > 0
    ensures |Split(s, sep)| == 2 <==>
      IndexOf(s, sep) >= 0 && IndexOf(s[IndexOf(s, sep) + |sep|..], sep) == -1
    ensures |Split(s, sep)| == 2 ==>
      Split(s, sep)[1] == s[IndexOf(s, sep) + |sep|..]
  {
    var i := IndexOf(s, sep);
    if i == -1 {
      assert Split(s, sep) == [s];
      assert |Split(s, sep)| == 1;
    } else {
      var rest := s[i + |sep|..];
      var tail := Split(rest, sep);
      assert Split(s, sep) == [s[..i]] + tail;
      var j := IndexOf(rest, sep);
      if j == -1 {
        assert tail == [rest];
        assert |Split(s, sep)| == 2 && Split(s, sep)[1] == rest;
      } else {
        assert tail == [rest[..j]] + Split(rest[j + |sep|..], sep);
        assert |Split(s, sep)| >= 3 && IndexOf(s[i + |sep|..], sep) != -1;
      }
    }
  }

  /** The first piece of a split on `;` is the text up to the first `;`. */
  lemma FirstPieceBeforeSemicolon(text: string)
    ensures var v := Split(text, ";")[0];
      && ';' !in v
      && |v| <= |text| && v == text[..|v|]
      && (v == text || (|v| < |text| && text[|v|] == ';'))
  {
    var v := Split(text, ";")[0];
    var i := IndexOf(text, ";");
    if i != -1 {
      assert text[i..i + 1] == ";";
      assert v == text[..i];
    }
    if ';' in v {
      var k :| 0 <= k < |v| && v[k] == ';';
      assert text[k..k + 1] == ";";
      assert OccursAt(text, ";", k);
    }
  }

  /** `text.split(';').shift()`: the text up to the first `;`. */
  function BeforeSemicolon(text: string): (v: string)
    ensures ';' !in v
    ensures |v| <= |text| && v == text[..|v|]
    ensures v == text || (|v| < |text| && text[|v|] == ';')
  {
    FirstPieceBeforeSemicolon(text);
    Split(text, ";")[0]
  }

  // ------------------------------------------------------------- getCookie

  /** The text the helper splits on: `; ${name}=`. */
  function Marker(name: string): string {
    "; " + name + "="
  }

  /**
    `getCookie(name)`: split `"; " + cookie` on `"; name="`; when that gives
    exactly two pieces, the second one up to its first `;`, otherwise
    undefined (None). `decodeURIComponent` is not part of this model.
  */
  function GetCookie(cookie: string, name: string): (r: Option<string>)
    ensures r.Some? ==> ';' !in r.value
  {
    var parts := Split("; " + cookie, Marker(name));
    if |parts| == 2 then Some(BeforeSemicolon(parts[1])) else None
  }

  /**
    The helper finds a value exactly when `"; name="` occurs once in
    `"; " + cookie`, and the value is what follows that occurrence up to the
    next `;`.
  */
  lemma GetCookieFindsLoneOccurrence(cookie: string, name: string)
    ensures var s := "; " + cookie;
      var i := IndexOf(s, Marker(name));
      (GetCookie(cookie, name).Some? <==>
        i >= 0 && IndexOf(s[i + |Marker(name)|..], Marker(name)) == -1)
      && (GetCookie(cookie, name).Some? ==>
        GetCookie(cookie, name).value == BeforeSemicolon(s[i + |Marker(name)|..]))
  {
    SplitInTwo("; " + cookie, Marker(name));
  }

  /** A cookie text `name=value` that holds a single cookie is read back. */
  lemma GetCookieOfSingleCookie(name: string, value: string)
    requires ';' !in value
    ensures GetCookie(name + "=" + value, name) == Some(value)
  {
    var m := Marker(name);
    var s := "; " + (name + "=" + value);
    assert s == m + value;
    assert OccursAt(s, m, 0) by {
      assert s[..|m|] == m;
    }
    var rest := s[|m|..];
    assert rest == value;
    assert IndexOf(rest, m) == -1 by {
      forall k | 0 <= k && k + |m| <= |rest|
        ensures !OccursAt(rest, m, k)
      {
        assert rest[k..k + |m|][0] == rest[k];
        assert rest[k] in value;
        assert m[0] == ';';
      }
    }
    SplitInTwo(s, m);
    assert BeforeSemicolon(value) == value;
  }

  /** A cookie text `name=v1; name=v2` is two markers with their values. */
  lemma RepeatedNameText(name: string, v1: string, v2: string)
    ensures "; " + (name + "=" + v1 + "; " + name + "=" + v2) == Marker(name) + v1 + Marker(name) + v2
  {
    var m := Marker(name);
    calc {
      "; " + (name + "=" + v1 + "; " + name + "=" + v2);
      ("; " + name + "=") + v1 + ("; " + name + "=") + v2;
    }
  }

  /** A name set twice makes the helper give up: the split has three pieces. */
  lemma GetCookieOfRepeatedName(name: string, v1: string, v2: string)
    ensures GetCookie(name + "=" + v1 + "; " + name + "=" + v2, name) == None
  {
    var m := Marker(name);
    var s := m + v1 + m + v2;
    RepeatedNameText(name, v1, v2);
    assert OccursAt(s, m, 0) by {
      assert s[..|m|] == m;
    }
    var rest := s[|m|..];
    assert rest == v1 + m + v2;
    assert OccursAt(rest, m, |v1|) by {
      assert rest[|v1|..|v1| + |m|] == m;
    }
    assert IndexOf(rest, m) != -1;
    SplitInTwo(s, m);
  }


  // -------------------------------------------------------- getCookieValue

  /** `\s`, restricted to the ASCII white-space characters. */
  predicate IsSpace(c: char) {
    c == ' ' || c == '\t' || c == '\n' || c == '\r' || c == '\U{000B}' || c == '\U{000C}'
  }

  /** A cookie name that stands for itself inside a regular expression. */
  predicate IsNameChar(c: char) {
    ('a' <= c <= 'z') || ('A' <= c <= 'Z') || ('0' <= c <= '9') || c == '_'
  }

  predicate PlainName(name: string) {
    |name| > 0 && forall k :: 0 <= k < |name| ==> IsNameChar(name[k])
  }

  /** `\s*` from position `i`: where the run of white space ends. */
  function SkipSpaces(s: string, i: nat): (j: nat)
    requires i <= |s|
    ensures i <= j <= |s|
    ensures forall k :: i <= k < j ==> IsSpace(s[k])
    ensures j < |s| ==> !IsSpace(s[j])
    decreases |s| - i
  {
    if i < |s| && IsSpace(s[i]) then SkipSpaces(s, i + 1) else i
  }

  /** `[^;]+` from position `i`, greedy: where the run of non-`;` characters ends. */
  function NonSemicolonRun(s: string, i: nat): (j: nat)
    requires i <= |s|
    ensures i <= j <= |s|
    ensures forall k :: i <= k < j ==> s[k] != ';'
    ensures j < |s| ==> s[j] == ';'
    decreases |s| - i
  {
    if i < |s| && s[i] != ';' then NonSemicolonRun(s, i + 1) else i
  }

  /**
    `\s*name\s*=` tried at position `p`: the position just after the `=`, or
    -1 when the name and the `=` are not there.
  */
  function AfterEquals(s: string, name: string, p: nat): (q: int)
    requires p <= |s|
    ensures q == -1 || (p < q <= |s| && s[q - 1] == '=')
    ensures q != -1 ==> OccursAt(s, name, SkipSpaces(s, p))
    ensures q != -1 ==> forall k :: SkipSpaces(s, p) + |name| <= k < q - 1 ==> IsSpace(s[k])
  {
    var a := SkipSpaces(s, p);
    if !(a + |name| <= |s| && s[a..a + |name|] == name) then -1
    else
      var b := SkipSpaces(s, a + |name|);
      if b < |s| && s[b] == '=' then b + 1 else -1
  }

  /**
    `\s*name\s*=\s*([^;]+)` tried at position `p`, with backtracking: the
    captured group, or None when the pattern cannot match there. The group is
    the run of non-`;` characters after the `=` with its leading white space
    dropped, except that when the run is all white space the engine gives its
    last character back to the group.
  */
  function MatchAt(s: string, name: string, p: nat): (r: Option<string>)
    requires p <= |s| && PlainName(name)
    ensures r.Some? <==> var q := AfterEquals(s, name, p); q != -1 && q < |s| && s[q] != ';'
    ensures r.Some? ==> r.value != [] && ';' !in r.value
    ensures r.Some? ==> OccursAt(s, name, SkipSpaces(s, p))
    ensures r.Some? ==> CapturedAfter(s, AfterEquals(s, name, p), r.value)
  {
    var q := AfterEquals(s, name, p);
    if q == -1 then None
    else
      var c := SkipSpaces(s, q);
      if c < |s| && s[c] != ';' then
        var e := NonSemicolonRun(s, c);
        CaptureOfRun(s, q, c);
        Some(s[c..e])
      else if c > q then
        RunOfSpaces(s, q, c);
        Some([s[c - 1]])
      else None
  }

  /** The capture `s[c..e]` after the white space that follows `=`. */
  lemma CaptureOfRun(s: string, q: nat, c: nat)
    requires q <= c < |s| && c == SkipSpaces(s, q) && s[c] != ';'
    ensures q < |s| && s[q] != ';'
    ensures var e := NonSemicolonRun(s, c);
      && s[c..e] != [] && ';' !in s[c..e] && CapturedAfter(s, q, s[c..e])
  {
    var e := NonSemicolonRun(s, c);
    RunFromSpaces(s, q, c);
    assert ';' !in s[c..e] by {
      forall k | 0 <= k < e - c ensures s[c..e][k] != ';' {
        assert s[c..e][k] == s[c + k];
      }
    }
  }

  /**
    `\s*([^;]+)` matched from position `q` captures `v`: `v` ends where the
    run of non-`;` characters from `q` ends, only white space precedes it, and
    it starts with a non-space character unless it is the one character the
    engine gave back to the group.
  */
  ghost predicate CapturedAfter(s: string, q: nat, v: string)
    requires q <= |s|
  {
    var e := NonSemicolonRun(s, q);
    && 0 < |v| <= e - q
    && v == s[e - |v|..e]
    && (forall k :: q <= k < e - |v| ==> IsSpace(s[k]))
    && (!IsSpace(v[0]) || |v| == 1)
  }

  /** White space is not a `;`, so the `[^;]` run from `q` passes over it. */
  lemma RunFromSpaces(s: string, q: nat, c: nat)
    requires q <= c <= |s| && forall k :: q <= k < c ==> IsSpace(s[k])
    ensures NonSemicolonRun(s, q) == NonSemicolonRun(s, c)
    decreases c - q
  {
    if q < c {
      RunFromSpaces(s, q + 1, c);
    }
  }

  /** When the white space after `=` ends at a `;` or the end, the `[^;]` run ends there too. */
  lemma RunOfSpaces(s: string, q: nat, c: nat)
    requires q < c <= |s| && c == SkipSpaces(s, q) && (c == |s| || s[c] == ';')
    ensures NonSemicolonRun(s, q) == c
    ensures [s[c - 1]] == s[c - 1..c]
    ensures s[q] != ';' && CapturedAfter(s, q, [s[c - 1]])
  {
    RunFromSpaces(s, q, c);
  }

  /**
    The capture of a match of `(^|;)\s*name\s*=\s*([^;]+)` that begins at
    position `m`: at the start `^` is tried before `;`, elsewhere only a `;`
    can begin a match.
  */
  function Capture(s: string, name: string, m: nat): (r: Option<string>)
    requires m <= |s| && PlainName(name)
    ensures r.Some? ==> r.value != [] && ';' !in r.value
    ensures r.Some? && m > 0 ==> m < |s| && s[m] == ';' && r == MatchAt(s, name, m + 1)
    ensures m == 0 && MatchAt(s, name, 0).Some? ==> r == MatchAt(s, name, 0)
  {
    var atStart := if m == 0 then MatchAt(s, name, 0) else None;
    if atStart.Some? then atStart
    else if m < |s| && s[m] == ';' then MatchAt(s, name, m + 1)
    else None
  }

  /** Where a match can begin: entry `k` holds when one begins at position `k`. */
  function MatchStarts(s: string, name: string): (b: seq<bool>)
    requires PlainName(name)
    ensures |b| == |s| + 1
    ensures forall k :: 0 <= k <= |s| ==> b[k] == Capture(s, name, k).Some?
  {
    seq(|s| + 1, k requires 0 <= k <= |s| => Capture(s, name, k).Some?)
  }

  /** The search of the regular-expression engine: the least index at or after `p` that holds, or -1. */
  function FirstFrom(b: seq<bool>, p: nat): (m: int)
    requires p <= |b|
    ensures m == -1 || (p <= m < |b| && b[m])
    ensures forall k :: p <= k < |b| && (m == -1 || k < m) ==> !b[k]
    decreases |b| - p
  {
    if p == |b| then -1
    else if b[p] then p
    else FirstFrom(b, p + 1)
  }

  /**
    `getCookieValue(name)`: the captured value of the leftmost match, or `''`
    when nothing matches.
  */
  function GetCookieValue(cookie: string, name: string): (v: string)
    requires PlainName(name)
    ensures ';' !in v
    ensures v == "" <==> forall k :: 0 <= k <= |cookie| ==> Capture(cookie, name, k).None?
    ensures v != "" ==> exists m :: 0 <= m <= |cookie| && Capture(cookie, name, m) == Some(v) &&
                                    (forall k :: 0 <= k < m ==> Capture(cookie, name, k).None?)
    ensures v != "" ==> IndexOf(cookie, name) >= 0 && exists i :: OccursAt(cookie, v, i)
  {
    var starts := MatchStarts(cookie, name);
    var m := FirstFrom(starts, 0);
    if m == -1 then ""
    else
      CaptureOccurs(cookie, name, m);
      Capture(cookie, name, m).value
  }

  /** A capture and the name before it both occur in the text. */
  lemma CaptureOccurs(s: string, name: string, m: nat)
    requires m <= |s| && PlainName(name) && Capture(s, name, m).Some?
    ensures IndexOf(s, name) >= 0
    ensures exists i :: OccursAt(s, Capture(s, name, m).value, i)
  {
    var p := if m == 0 && MatchAt(s, name, 0).Some? then 0 else m + 1;
    assert Capture(s, name, m) == MatchAt(s, name, p);
    MatchOccurs(s, name, p);
  }

  /** A match, and the name before it, occur in the text. */
  lemma MatchOccurs(s: string, name: string, p: nat)
    requires p <= |s| && PlainName(name) && MatchAt(s, name, p).Some?
    ensures IndexOf(s, name) >= 0
    ensures OccursAt(s, MatchAt(s, name, p).value, NonSemicolonRun(s, AfterEquals(s, name, p)) - |MatchAt(s, name, p).value|)
  {
    assert OccursAt(s, name, SkipSpaces(s, p));
  }

  lemma SkipNoSpace(s: string, i: nat)
    requires i <= |s| && (i == |s| || !IsSpace(s[i]))
    ensures SkipSpaces(s, i) == i
  {
  }

  /**
    On a single cookie `name=value` whose value neither starts with white space
    nor holds a `;`, the regular-expression reader gives the same value as the
    splitting helper.
  */
  lemma ReadersAgreeOnSingleCookie(name: string, value: string)
    requires PlainName(name)
    requires value != [] && ';' !in value && !IsSpace(value[0])
    ensures GetCookieValue(name + "=" + value, name) == value
    ensures GetCookie(name + "=" + value, name) == Some(value)
  {
    GetCookieOfSingleCookie(name, value);
    var s := name + "=" + value;
    var n := |name|;
    assert !IsSpace(s[0]) by {
      assert s[0] == name[0];
      assert IsNameChar(name[0]);
    }
    SkipNoSpace(s, 0);
    assert s[0..n] == name;
    assert s[n] == '=';
    SkipNoSpace(s, n);
    assert s[n + 1] == value[0];
    SkipNoSpace(s, n + 1);
    var e := NonSemicolonRun(s, n + 1);
    assert e == |s|;
    assert s[n + 1..e] == value;
  }

  /** A cookie whose name is not `name` does not begin a match at the start of the text. */
  lemma {:induction false} NoMatchAtOtherName(s: string, other: string, name: string)
    requires PlainName(name) && PlainName(other) && other != name
    requires |other| < |s| && s[..|other|] == other && s[|other|] == '='
    ensures MatchAt(s, name, 0).None?
  {
    assert !IsSpace(s[0]) by {
      assert s[0] == other[0] && IsNameChar(other[0]);
    }
    SkipNoSpace(s, 0);
    var n := |name|;
    if n <= |s| && s[..n] == name {
      if n < |other| {
        assert s[n] == other[n] && IsNameChar(other[n]);
        SkipNoSpace(s, n);
      } else if n > |other| {
        assert false;
      } else {
        assert false;
      }
    }
  }

  /** No match begins inside a first cookie `other=otherValue` whose name is not `name`. */
  lemma NoCaptureInFirstCookie(s: string, other: string, otherValue: string, name: string)
    requires PlainName(name) && PlainName(other) && other != name && ';' !in otherValue
    requires |other| + 1 + |otherValue| <= |s| && s[..|other| + 1 + |otherValue|] == other + "=" + otherValue
    ensures forall k :: 0 <= k < |other| + 1 + |otherValue| ==> Capture(s, name, k).None?
  {
    var j := |other| + 1 + |otherValue|;
    FirstCookieHasNoSemicolon(s, other, otherValue);
    NoMatchAtOtherName(s, other, name);
    forall k | 0 <= k < j
      ensures Capture(s, name, k).None?
    {
      NoCaptureOffSemicolon(s, name, k);
    }
  }

  lemma FirstCookieHasNoSemicolon(s: string, other: string, otherValue: string)
    requires PlainName(other) && ';' !in otherValue
    requires |other| + 1 + |otherValue| <= |s| && s[..|other| + 1 + |otherValue|] == other + "=" + otherValue
    ensures forall k :: 0 <= k < |other| + 1 + |otherValue| ==> s[k] != ';'
    ensures s[..|other|] == other && s[|other|] == '='
  {
    var j := |other| + 1 + |otherValue|;
    forall k | 0 <= k < j
      ensures s[k] != ';'
    {
      assert s[k] == s[..j][k];
      if k < |other| {
        assert s[k] == other[k] && IsNameChar(other[k]);
      } else if k > |other| {
        assert s[k] == otherValue[k - |other| - 1];
      }
    }
    assert s[..|other|] == s[..j][..|other|];
  }

  /** A match can only begin at a `;`, or at the start when the pattern matches there. */
  lemma NoCaptureOffSemicolon(s: string, name: string, k: nat)
    requires PlainName(name) && k < |s| && s[k] != ';'
    requires k == 0 ==> MatchAt(s, name, 0).None?
    ensures Capture(s, name, k).None?
  {
  }

  /**
    `\s*name\s*=` at `p` when only white space lies between `p` and the name
    and between the name and the `=` at `b`: the match ends just after that `=`.
  */
  lemma AfterEqualsOfName(s: string, name: string, p: nat, a: nat, b: nat)
    requires PlainName(name) && p <= a && a + |name| <= b < |s|
    requires forall k :: p <= k < a ==> IsSpace(s[k])
    requires s[a..a + |name|] == name && s[b] == '='
    requires forall k :: a + |name| <= k < b ==> IsSpace(s[k])
    ensures AfterEquals(s, name, p) == b + 1
  {
    assert s[a] == name[0] && IsNameChar(name[0]);
    SpacesThenStop(s, p, a);
  }

  /** `\s*name=` at `p`, with the `=` right after the name. */
  lemma AfterEqualsOfAdjacentName(s: string, name: string, p: nat, a: nat)
    requires PlainName(name) && p <= a && a + |name| < |s|
    requires forall k :: p <= k < a ==> IsSpace(s[k])
    requires s[a..a + |name|] == name && s[a + |name|] == '='
    ensures AfterEquals(s, name, p) == a + |name| + 1
  {
    AfterEqualsOfName(s, name, p, a, a + |name|);
  }

  /** `\s*` from `p` stops at the first character that is not white space. */
  lemma SpacesThenStop(s: string, p: nat, a: nat)
    requires p <= a < |s| && !IsSpace(s[a]) && forall k :: p <= k < a ==> IsSpace(s[k])
    ensures SkipSpaces(s, p) == a
    decreases a - p
  {
    if p < a {
      SpacesThenStop(s, p + 1, a);
    }
  }

  /** A value running to the end of the text, not starting with white space, is captured whole. */
  lemma MatchOfTrailingValue(s: string, name: string, p: nat, value: string)
    requires p <= |s| && PlainName(name) && value != [] && ';' !in value && !IsSpace(value[0])
    requires var q := AfterEquals(s, name, p); q != -1 && s[q..] == value
    ensures MatchAt(s, name, p) == Some(value)
  {
    var q := AfterEquals(s, name, p);
    assert s[q] == value[0];
    SkipNoSpace(s, q);
    forall k | q <= k < |s| ensures s[k] != ';' {
      assert s[k] == value[k - q];
    }
    RunToEnd(s, q);
    assert s[q..|s|] == value;
  }

  /** After `; ` a cookie `name=value` is matched, and its whole value is captured. */
  lemma CaptureOfLaterCookie(s: string, j: nat, name: string, value: string)
    requires PlainName(name) && value != [] && ';' !in value && !IsSpace(value[0])
    requires 0 < j && j + 2 <= |s| && s[j..] == "; " + name + "=" + value
    ensures Capture(s, name, j) == Some(value)
  {
    var n := |name|;
    var t := s[j..];
    assert s[j] == t[0] == ';';
    assert s[j + 1] == t[1] == ' ';
    assert s[j + 2..j + 2 + n] == t[2..2 + n] == name;
    assert s[j + 2 + n] == t[2 + n] == '=';
    AfterEqualsOfAdjacentName(s, name, j + 1, j + 2);
    assert s[j + 3 + n..] == t[3 + n..] == value;
    MatchOfTrailingValue(s, name, j + 1, value);
  }

  /**
    In `other=otherValue; name=value` the regular-expression reader skips the
    first cookie and returns the value of the second.
  */
  lemma GetCookieValueOfSecondCookie(other: string, otherValue: string, name: string, value: string)
    requires PlainName(name) && PlainName(other) && other != name && ';' !in otherValue
    requires value != [] && ';' !in value && !IsSpace(value[0])
    ensures GetCookieValue(other + "=" + otherValue + "; " + name + "=" + value, name) == value
  {
    var first := other + "=" + otherValue;
    var s := first + "; " + name + "=" + value;
    var j := |first|;
    assert s[..j] == first;
    NoCaptureInFirstCookie(s, other, otherValue, name);
    assert s[j..] == "; " + name + "=" + value;
    CaptureOfLaterCookie(s, j, name, value);
    LeftmostCaptureIsTheValue(s, name, j);
  }

  /** `\s*=` lets white space stand between the name and the `=`: `name =value` reads as the value. */
  lemma GetCookieValueWithSpaceBeforeEquals(name: string, value: string)
    requires PlainName(name)
    requires value != [] && ';' !in value && !IsSpace(value[0])
    ensures GetCookieValue(name + " =" + value, name) == value
  {
    var s := name + " =" + value;
    var n := |name|;
    assert s[0..n] == name;
    assert s[n] == ' ' && s[n + 1] == '=';
    AfterEqualsOfName(s, name, 0, 0, n + 1);
    assert s[n + 2..] == value;
    MatchOfTrailingValue(s, name, 0, value);
    LeftmostCaptureIsTheValue(s, name, 0);
  }

  /** The value read is the capture of the first position where a match begins. */
  lemma LeftmostCaptureIsTheValue(s: string, name: string, j: nat)
    requires PlainName(name) && j <= |s| && Capture(s, name, j).Some?
    requires forall k :: 0 <= k < j ==> Capture(s, name, k).None?
    ensures GetCookieValue(s, name) == Capture(s, name, j).value
  {
    var v := GetCookieValue(s, name);
    var m :| 0 <= m <= |s| && Capture(s, name, m) == Some(v) && forall k :: 0 <= k < m ==> Capture(s, name, k).None?;
    assert m == j;
  }

  /** With no `;` from `i` on, the `[^;]` run reaches the end. */
  lemma RunToEnd(s: string, i: nat)
    requires i <= |s| && forall k :: i <= k < |s| ==> s[k] != ';'
    ensures NonSemicolonRun(s, i) == |s|
    decreases |s| - i
  {
    if i < |s| {
      RunToEnd(s, i + 1);
    }
  }
}
