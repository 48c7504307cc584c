/** Text rules of the budget chat server: which names and message lines it
    accepts, how it removes line breaks from an input line, and the format of
    the comma-separated roster it sends to a newcomer. */
module ChatText {

  /** Rust's `char::is_ascii`: a code point below 0x80. */
  predicate IsAsciiChar(c: char) {
    c as int < 0x80
  }

  /** Rust's `str::is_ascii`. */
  predicate IsAscii(s: string) {
    forall i :: 0 <= i < |s| ==> IsAsciiChar(s[i])
  }

  /** An ASCII letter or digit. Rust's `char::is_alphanumeric` also accepts
      non-ASCII letters and digits, but the name check only consults it on
      strings that already passed `is_ascii`, where the two agree. */
  predicate IsAsciiAlphanumeric(c: char) {
    ('a' <= c <= 'z') || ('A' <= c <= 'Z') || ('0' <= c <= '9')
  }

  /** Number of bytes in the UTF-8 encoding of `c`. */
  function Utf8Width(c: char): (w: nat)
    ensures 1 <= w <= 4
    ensures w == 1 <==> IsAsciiChar(c)
  {
    if c as int < 0x80 then 1
    else if c as int < 0x800 then 2
    else if c as int < 0x1_0000 then 3
    else 4
  }

  /** Rust's `str::len`: the length of the UTF-8 encoding, in bytes. */
  function Utf8Len(s: string): nat {
    if s == [] then 0 else Utf8Width(s[0]) + Utf8Len(s[1..])
  }

  /** A string's byte length is at least its character count, with equality
      exactly for ASCII strings. */
  lemma {:induction false} Utf8LenBounds(s: string)
    ensures |s| <= Utf8Len(s)
    ensures Utf8Len(s) == |s| <==> IsAscii(s)
  {
    if s != [] {
      Utf8LenBounds(s[1..]);
      assert IsAscii(s) <==> IsAsciiChar(s[0]) && IsAscii(s[1..]) by {
        if IsAsciiChar(s[0]) && IsAscii(s[1..]) {
          forall i | 0 <= i < |s| ensures IsAsciiChar(s[i]) {
            if i > 0 { assert s[i] == s[1..][i - 1]; }
          }
        }
        if IsAscii(s) {
          forall i | 0 <= i < |s[1..]| ensures IsAsciiChar(s[1..][i]) {
            assert s[1..][i] == s[i + 1];
          }
        }
      }
    }
  }

  const MaxNameLength: nat := 50

  /** `is_valid_username` as written: the byte-length window is checked first,
      then ASCII, then letters and digits only. */
  predicate IsValidUsername(name: string) {
    if Utf8Len(name) < 1 || Utf8Len(name) > MaxNameLength then false
    else IsAscii(name) && forall i :: 0 <= i < |name| ==> IsAsciiAlphanumeric(name[i])
  }

  /** A name is accepted exactly when it has 1 to 50 characters, each an
      ASCII letter or digit. */
  lemma UsernameRule(name: string)
    ensures IsValidUsername(name) <==>
      1 <= |name| <= MaxNameLength && forall i :: 0 <= i < |name| ==> IsAsciiAlphanumeric(name[i])
  {
    Utf8LenBounds(name);
  }

  /** Sample names: one accepted, two rejected. */
  lemma UsernameExamples()
    ensures IsValidUsername("Bob123")
    ensures !IsValidUsername("")
    ensures !IsValidUsername("bob!")
  {
    UsernameRule("Bob123");
    UsernameRule("");
    UsernameRule("bob!");
    assert !IsAsciiAlphanumeric("bob!"[3]);
  }

  /** `is_valid_message` as written: ASCII, and at least one byte long. */
  predicate IsValidMessage(msg: string) {
    IsAscii(msg) && Utf8Len(msg) >= 1
  }

  /** A chat line is accepted exactly when it is non-empty and all ASCII. */
  lemma MessageRule(msg: string)
    ensures IsValidMessage(msg) <==> |msg| >= 1 && IsAscii(msg)
  {
    Utf8LenBounds(msg);
  }

  /** `str::replace(c, "")`: every occurrence of `c` is dropped, wherever it
      stands in the string. */
  function RemoveChar(s: string, c: char): (r: string)
    ensures c !in r
    ensures forall d :: d in r ==> d in s
    ensures |r| <= |s|
  {
    if s == [] then [] else (if s[0] == c then [] else [s[0]]) + RemoveChar(s[1..], c)
  }

  /** Removal works piecewise: it acts on a concatenation part by part. */
  lemma {:induction false} RemoveCharAppend(a: string, b: string, c: char)
    ensures RemoveChar(a + b, c) == RemoveChar(a, c) + RemoveChar(b, c)
  {
    if a == [] {
      assert a + b == b;
    } else {
      assert (a + b)[0] == a[0];
      assert (a + b)[1..] == a[1..] + b;
      RemoveCharAppend(a[1..], b, c);
    }
  }

  /** A string without `c` is left as it is. */
  lemma {:induction false} RemoveCharAbsent(s: string, c: char)
    requires c !in s
    ensures RemoveChar(s, c) == s
  {
    if s != [] {
      RemoveCharAbsent(s[1..], c);
    }
  }

  /** Every character other than `c` keeps its number of occurrences. */
  lemma {:induction false} RemoveCharCounts(s: string, c: char)
    ensures multiset(RemoveChar(s, c))[c] == 0
    ensures forall d :: d != c ==> multiset(RemoveChar(s, c))[d] == multiset(s)[d]
  {
    if s != [] {
      RemoveCharCounts(s[1..], c);
      assert s == [s[0]] + s[1..];
    }
  }

  /** Removing two characters gives the same string in either order. */
  lemma {:induction false} RemoveCharCommutes(s: string, a: char, b: char)
    ensures RemoveChar(RemoveChar(s, a), b) == RemoveChar(RemoveChar(s, b), a)
  {
    if s != [] {
      RemoveCharCommutes(s[1..], a, b);
      var h := if s[0] == a then [] else [s[0]];
      var k := if s[0] == b then [] else [s[0]];
      RemoveCharAppend(h, RemoveChar(s[1..], a), b);
      RemoveCharAppend(k, RemoveChar(s[1..], b), a);
    }
  }

  /** The cleaning applied to the name line (line 52): `\r` then `\n`
      removed everywhere. */
  function StripLineBreaks(s: string): (r: string)
    ensures '\r' !in r && '\n' !in r
  {
    RemoveChar(RemoveChar(s, '\r'), '\n')
  }

  /** The chat-line cleaning (line 119) removes `\n` first and `\r` second,
      with the same result as the name-line cleaning. */
  lemma StripOrderIrrelevant(s: string)
    ensures RemoveChar(RemoveChar(s, '\n'), '\r') == StripLineBreaks(s)
  {
    RemoveCharCommutes(s, '\r', '\n');
  }

  /** Cleaning keeps every other character with its multiplicity, works
      piecewise on a concatenation, leaves a break-free line unchanged and is
      therefore idempotent. */
  lemma StripLineBreaksFacts(s: string, t: string)
    ensures forall d :: d != '\r' && d != '\n' ==> multiset(StripLineBreaks(s))[d] == multiset(s)[d]
    ensures StripLineBreaks(s + t) == StripLineBreaks(s) + StripLineBreaks(t)
    ensures '\r' !in s && '\n' !in s ==> StripLineBreaks(s) == s
    ensures StripLineBreaks(StripLineBreaks(s)) == StripLineBreaks(s)
  {
    RemoveCharCounts(s, '\r');
    RemoveCharCounts(RemoveChar(s, '\r'), '\n');
    RemoveCharAppend(s, t, '\r');
    RemoveCharAppend(RemoveChar(s, '\r'), RemoveChar(t, '\r'), '\n');
    if '\r' !in s && '\n' !in s {
      RemoveCharAbsent(s, '\r');
      RemoveCharAbsent(s, '\n');
    }
    var r := StripLineBreaks(s);
    RemoveCharAbsent(r, '\r');
    RemoveCharAbsent(r, '\n');
  }

  /** Line breaks are removed in the middle of a line too, not only at its end. */
  lemma StripLineBreaksExample()
    ensures StripLineBreaks("a\rb\n") == "ab"
  {
    assert RemoveChar("\n", '\r') == "\n";
    assert RemoveChar("b\n", '\r') == "b\n";
    assert RemoveChar("\rb\n", '\r') == "b\n";
    assert RemoveChar("a\rb\n", '\r') == "ab\n";
    assert RemoveChar("\n", '\n') == "";
    assert RemoveChar("b\n", '\n') == "b";
    assert RemoveChar("ab\n", '\n') == "ab";
  }

  /** `Vec::join(", ")` on the roster. */
  function JoinNames(names: seq<string>): string {
    if |names| == 0 then ""
    else if |names| == 1 then names[0]
    else names[0] + ", " + JoinNames(names[1..])
  }

  /** Position of the first comma, or the length when there is none. */
  function IndexOfComma(s: string): (i: nat)
    ensures i <= |s|
    ensures i < |s| ==> s[i] == ','
    ensures forall j :: 0 <= j < i ==> s[j] != ','
  {
    if s == [] then 0 else if s[0] == ',' then 0 else 1 + IndexOfComma(s[1..])
  }

  /** Splits a roster at each comma, dropping the space after it. */
  function SplitNames(s: string): seq<string>
    decreases |s|
  {
    var i := IndexOfComma(s);
    if i == |s| then [s]
    else
      var rest := s[i + 1..];
      [s[..i]] + SplitNames(if |rest| > 0 && rest[0] == ' ' then rest[1..] else rest)
  }

  /** What a client reads back from the roster text. */
  function ParseRoster(s: string): seq<string> {
    if s == "" then [] else SplitNames(s)
  }

  /** A name usable in a roster: non-empty and free of commas. */
  predicate IsRosterName(n: string) {
    n != [] && ',' !in n
  }

  /** The first comma of `x + t` is the one opening `t` when `x` has none. */
  lemma {:induction false} IndexOfCommaAfter(x: string, t: string)
    requires ',' !in x
    requires t != [] && t[0] == ','
    ensures IndexOfComma(x + t) == |x|
  {
    if x != [] {
      assert (x + t)[1..] == x[1..] + t;
      IndexOfCommaAfter(x[1..], t);
    } else {
      assert x + t == t;
    }
  }

  lemma {:induction false} SplitJoin(names: seq<string>)
    requires |names| >= 1
    requires forall i :: 0 <= i < |names| ==> IsRosterName(names[i])
    ensures SplitNames(JoinNames(names)) == names
  {
    var x := names[0];
    if |names| > 1 {
      var j := JoinNames(names[1..]);
      var s := x + ", " + j;
      assert s == x + (", " + j);
      IndexOfCommaAfter(x, ", " + j);
      assert s[..|x|] == x;
      assert s[|x| + 1..] == " " + j;
      assert (" " + j)[1..] == j;
      SplitJoin(names[1..]);
      assert names == [x] + names[1..];
    }
  }

  /** Reading the roster back yields exactly the joined names, in order. */
  lemma RosterRoundTrip(names: seq<string>)
    requires forall i :: 0 <= i < |names| ==> IsRosterName(names[i])
    ensures ParseRoster(JoinNames(names)) == names
  {
    if |names| >= 1 {
      var j := JoinNames(names);
      assert j[..|names[0]|] == names[0];
      SplitJoin(names);
    }
  }

  /** Every accepted name can stand in a roster. */
  lemma ValidNameIsRosterName(name: string)
    requires IsValidUsername(name)
    ensures IsRosterName(name)
  {
    UsernameRule(name);
  }
}
