/**
 * The pieces of Rust's `str` and `char` API that the modelled code relies on:
 * Unicode white space, trimming, `lines`, `split`, `split_whitespace`, `find`,
 * `join`, decimal formatting, UTF-8 lengths and encoding, and lower-case hex.
 * Positions are character positions; the byte view is given by `ByteLen`.
 */
module Text {
  import opened Wrappers

  newtype byte = x: int | 0 <= x < 256

  /** The Unicode White_Space property, which `char::is_whitespace`, `trim` and `split_whitespace` use. */
  predicate IsWhitespace(c: char) {
    ('\t' <= c <= '\r') || c == ' ' || c == '\U{85}' || c == '\U{A0}' || c == '\U{1680}'
    || ('\U{2000}' <= c <= '\U{200A}') || c == '\U{2028}' || c == '\U{2029}'
    || c == '\U{202F}' || c == '\U{205F}' || c == '\U{3000}'
  }

  predicate NoWhitespace(s: string) {
    forall i :: 0 <= i < |s| ==> !IsWhitespace(s[i])
  }

  /** `str::trim_start`: drops the leading white space and nothing else. */
  function TrimStart(s: string): (r: string)
    ensures |r| <= |s| && r == s[|s| - |r|..]
    ensures r == [] || !IsWhitespace(r[0])
    ensures forall i :: 0 <= i < |s| - |r| ==> IsWhitespace(s[i])
  {
    if s != [] && IsWhitespace(s[0]) then TrimStart(s[1..]) else s
  }

  /** `str::trim_end`: drops the trailing white space and nothing else. */
  function TrimEnd(s: string): (r: string)
    ensures |r| <= |s| && r == s[..|r|]
    ensures r == [] || !IsWhitespace(r[|r| - 1])
    ensures forall i :: |r| <= i < |s| ==> IsWhitespace(s[i])
  {
    if s != [] && IsWhitespace(s[|s| - 1]) then TrimEnd(s[..|s| - 1]) else s
  }

  /** `str::trim`. */
  function Trim(s: string): (r: string)
    ensures r == [] || (!IsWhitespace(r[0]) && !IsWhitespace(r[|r| - 1]))
    ensures |r| <= |s|
    ensures forall c | c in r :: c in s
  {
    var start := TrimStart(s);
    assert forall c | c in start :: c in s;
    TrimEnd(start)
  }

  lemma TrimIdempotent(s: string)
    ensures Trim(Trim(s)) == Trim(s)
  {
    var t := Trim(s);
    assert TrimStart(t) == t;
    assert TrimEnd(t) == t;
  }

  lemma TrimAllWhitespace(s: string)
    requires forall i :: 0 <= i < |s| ==> IsWhitespace(s[i])
    ensures Trim(s) == []
  {
  }

  predicate StartsWith(s: string, prefix: string) {
    |prefix| <= |s| && s[..|prefix|] == prefix
  }

  predicate EndsWith(s: string, suffix: string) {
    |suffix| <= |s| && s[|s| - |suffix|..] == suffix
  }

  /** `pattern` occurs in `s` starting at position `i`. */
  predicate OccursAt(s: string, pattern: string, i: nat) {
    i + |pattern| <= |s| && s[i..i + |pattern|] == pattern
  }

  lemma OccursAtTail(s: string, pattern: string, i: nat)
    requires s != []
    ensures OccursAt(s, pattern, i + 1) <==> OccursAt(s[1..], pattern, i)
  {
    if i + 1 + |pattern| <= |s| {
      assert s[i + 1..i + 1 + |pattern|] == s[1..][i..i + |pattern|];
    }
  }

  /** `str::find`: the first position at which `pattern` occurs. */
  function Find(s: string, pattern: string): (r: Option<nat>)
    ensures r.Some? ==> OccursAt(s, pattern, r.value)
    ensures forall i: nat {:trigger OccursAt(s, pattern, i)} :: (r.None? || i < r.value) ==> !OccursAt(s, pattern, i)
    decreases |s|
  {
    if OccursAt(s, pattern, 0) then Some(0)
    else if s == [] then None
    else
      var rest := Find(s[1..], pattern);
      FindShift(s, pattern, rest);
      match rest
      case None => None
      case Some(j) => Some(j + 1)
  }

  lemma FindShift(s: string, pattern: string, rest: Option<nat>)
    requires s != [] && !OccursAt(s, pattern, 0)
    requires rest.Some? ==> OccursAt(s[1..], pattern, rest.value)
    requires forall i: nat {:trigger OccursAt(s[1..], pattern, i)} :: (rest.None? || i < rest.value) ==> !OccursAt(s[1..], pattern, i)
    ensures rest.Some? ==> OccursAt(s, pattern, rest.value + 1)
    ensures forall i: nat {:trigger OccursAt(s, pattern, i)} :: (rest.None? || i < rest.value + 1) ==> !OccursAt(s, pattern, i)
  {
    if rest.Some? {
      OccursAtTail(s, pattern, rest.value);
    }
    forall i: nat | rest.None? || i < rest.value + 1
      ensures !OccursAt(s, pattern, i)
    {
      if i > 0 {
        OccursAtTail(s, pattern, i - 1);
      }
    }
  }

  predicate Contains(s: string, pattern: string) {
    Find(s, pattern).Some?
  }

  lemma NoCharBeforeFind(s: string, c: char, i: nat)
    requires Find(s, [c]).Some? && i < Find(s, [c]).value
    ensures s[i] != c
  {
    assert !OccursAt(s, [c], i);
    assert s[i..i + 1] == [s[i]];
  }

  lemma FindCharAbsent(s: string, c: char)
    requires c !in s
    ensures Find(s, [c]).None?
  {
    forall i: nat ensures !OccursAt(s, [c], i) {
      if i + 1 <= |s| {
        assert s[i..i + 1] == [s[i]];
      }
    }
  }

  lemma FindCharAfter(p: string, c: char, t: string)
    requires c !in p
    ensures Find(p + [c] + t, [c]) == Some(|p|)
  {
    var s := p + [c] + t;
    assert OccursAt(s, [c], |p|) by { assert s[|p|..|p| + 1] == [c]; }
    forall i: nat | i < |p| ensures !OccursAt(s, [c], i) {
      assert s[i..i + 1] == [p[i]];
    }
  }

  /** ASCII lower-casing of one character. */
  function ToLowerChar(c: char): char {
    if 'A' <= c <= 'Z' then (c as int + 32) as char else c
  }

  /** Lower-casing, character by character (ASCII letters only). */
  function ToLower(s: string): (r: string)
    ensures |r| == |s|
    ensures forall i :: 0 <= i < |s| ==> r[i] == ToLowerChar(s[i])
  {
    seq(|s|, i requires 0 <= i < |s| => ToLowerChar(s[i]))
  }

  /** Lower-casing introduces no character outside the lower-case letters. */
  lemma ToLowerAvoids(s: string, c: char)
    requires c !in s && !('a' <= c <= 'z')
    ensures c !in ToLower(s)
  {
    forall i | 0 <= i < |s| ensures ToLower(s)[i] != c {
      assert s[i] != c;
    }
  }

  /** Lower-casing leaves no ASCII upper-case letter. */
  lemma ToLowerNoUpper(s: string)
    ensures forall c | c in ToLower(s) :: !IsAsciiUpper(c)
  {
    forall c | c in ToLower(s) ensures !IsAsciiUpper(c) {
      var i :| 0 <= i < |s| && ToLower(s)[i] == c;
    }
  }

  predicate IsAsciiUpper(c: char) {
    'A' <= c <= 'Z'
  }

  /** `[T]::join(sep)` on strings. */
  function Join(parts: seq<string>, sep: string): string {
    if |parts| == 0 then ""
    else if |parts| == 1 then parts[0]
    else parts[0] + sep + Join(parts[1..], sep)
  }

  lemma JoinAppend(parts: seq<string>, last: string, sep: string)
    requires |parts| >= 1
    ensures Join(parts + [last], sep) == Join(parts, sep) + sep + last
  {
    if |parts| == 1 {
      assert parts + [last] == [parts[0], last];
    } else {
      assert (parts + [last])[1..] == parts[1..] + [last];
      JoinAppend(parts[1..], last, sep);
    }
  }

  lemma JoinCons(first: string, rest: seq<string>, sep: string)
    requires |rest| >= 1
    ensures Join([first] + rest, sep) == first + sep + Join(rest, sep)
  {
    assert ([first] + rest)[1..] == rest;
  }

  /** Joining with a final empty part leaves a trailing separator. */
  lemma JoinTerminated(parts: seq<string>, sep: string)
    requires |parts| >= 1
    ensures Join(parts + [""], sep) == Join(parts, sep) + sep
  {
    var j := Join(parts, sep);
    JoinAppend(parts, "", sep);
    assert j + sep + "" == j + sep;
  }

  lemma {:induction false} JoinConcat(a: seq<string>, b: seq<string>, sep: string)
    requires |a| >= 1 && |b| >= 1
    ensures Join(a + b, sep) == Join(a, sep) + sep + Join(b, sep)
    decreases |a|
  {
    if |a| == 1 {
      assert (a + b)[1..] == b;
    } else {
      assert (a + b)[1..] == a[1..] + b;
      JoinConcat(a[1..], b, sep);
    }
  }

  lemma ConcatAssoc<T>(a: seq<T>, b: seq<T>, c: seq<T>, whole: seq<T>)
    requires whole == a + b + c
    ensures whole == a + (b + c)
  {
  }

  /** Three non-empty runs of parts: the middle run's join sits between the other two. */
  lemma JoinThree(head: seq<string>, mid: seq<string>, tail: seq<string>, sep: string, whole: seq<string>)
    requires |head| >= 1 && |mid| >= 1 && |tail| >= 1 && whole == head + mid + tail
    ensures Join(whole, sep) == Join(head, sep) + sep + (Join(mid, sep) + sep + Join(tail, sep))
  {
    ConcatAssoc(head, mid, tail, whole);
    JoinConcat(head, mid + tail, sep);
    JoinConcat(mid, tail, sep);
  }

  /** Joining a joined part in place is the same as joining its pieces in place. */
  lemma JoinFlatten(head: seq<string>, inner: seq<string>, tail: seq<string>, sep: string)
    requires |head| >= 1 && |inner| >= 1 && |tail| >= 1
    ensures Join(head + [Join(inner, sep)] + tail, sep) == Join(head + inner + tail, sep)
  {
    var j := Join(inner, sep);
    JoinThree(head, [j], tail, sep, head + [j] + tail);
    JoinThree(head, inner, tail, sep, head + inner + tail);
  }

  /** A character found in no part and not in the separator is not in the joined string. */
  lemma {:induction false} JoinAvoids(parts: seq<string>, sep: string, c: char)
    requires c !in sep
    requires forall p | p in parts :: c !in p
    ensures c !in Join(parts, sep)
    decreases |parts|
  {
    if |parts| > 1 {
      JoinAvoids(parts[1..], sep, c);
    }
  }

  /** `str::split(sep)` for a single separator character. */
  function Split(s: string, sep: char): (r: seq<string>)
    ensures |r| >= 1
    ensures forall piece | piece in r :: sep !in piece
    decreases |s|
  {
    match Find(s, [sep])
    case None =>
      assert sep !in s by {
        if sep in s {
          var i :| 0 <= i < |s| && s[i] == sep;
          assert s[i..i + 1] == [sep];
          assert OccursAt(s, [sep], i);
        }
      }
      [s]
    case Some(i) =>
      assert sep !in s[..i] by {
        forall j | 0 <= j < i ensures s[..i][j] != sep { NoCharBeforeFind(s, sep, j); }
      }
      [s[..i]] + Split(s[i + 1..], sep)
  }

  /** Splitting undoes joining when no part holds the separator. */
  lemma {:induction false} SplitJoin(parts: seq<string>, sep: char)
    requires |parts| >= 1
    requires forall p | p in parts :: sep !in p
    ensures Split(Join(parts, [sep]), sep) == parts
  {
    if |parts| == 1 {
      FindCharAbsent(parts[0], sep);
    } else {
      var rest := Join(parts[1..], [sep]);
      assert Join(parts, [sep]) == parts[0] + [sep] + rest;
      SplitCons(parts[0], sep, rest);
      SplitJoin(parts[1..], sep);
      assert parts == [parts[0]] + parts[1..];
    }
  }

  /** A first piece without the separator is split off whole. */
  lemma SplitCons(p: string, sep: char, rest: string)
    requires sep !in p
    ensures Split(p + [sep] + rest, sep) == [p] + Split(rest, sep)
  {
    FindCharAfter(p, sep, rest);
    var s := p + [sep] + rest;
    assert s[..|p|] == p;
    assert s[|p| + 1..] == rest;
  }

  function StripCarriageReturn(line: string): string {
    if |line| > 0 && line[|line| - 1] == '\r' then line[..|line| - 1] else line
  }

  /** `str::lines`: pieces ended by "\n" (a "\r" before it is dropped); no empty piece after a final "\n". */
  function Lines(s: string): (r: seq<string>)
    ensures forall line | line in r :: '\n' !in line
    decreases |s|
  {
    if s == [] then []
    else
      match Find(s, "\n")
      case None =>
        assert '\n' !in s by { if '\n' in s { FindCharAbsentContra(s, '\n'); } }
        [s]
      case Some(i) =>
        assert '\n' !in s[..i] by {
          forall j | 0 <= j < i ensures s[..i][j] != '\n' { NoCharBeforeFind(s, '\n', j); }
        }
        [StripCarriageReturn(s[..i])] + Lines(s[i + 1..])
  }

  lemma FindCharAbsentContra(s: string, c: char)
    requires c in s
    ensures Find(s, [c]).Some?
  {
    var i :| 0 <= i < |s| && s[i] == c;
    assert s[i..i + 1] == [c];
    assert OccursAt(s, [c], i);
  }

  /** The first line is everything before the first "\n". */
  lemma LinesFirst(s: string, p: string, t: string)
    requires '\n' !in p && s == p + "\n" + t
    ensures Lines(s) == [StripCarriageReturn(p)] + Lines(t)
  {
    FindCharAfter(p, '\n', t);
    assert s[..|p|] == p;
    assert s[|p| + 1..] == t;
  }

  /** Text that ends with a line break splits into lines independently of what follows it. */
  lemma {:induction false} LinesAppend(a: string, b: string)
    requires a == [] || a[|a| - 1] == '\n'
    ensures Lines(a + b) == Lines(a) + Lines(b)
    decreases |a|
  {
    if a == [] {
      assert a + b == b;
    } else {
      var p, t := FirstLineBreak(a);
      assert t == [] || t[|t| - 1] == '\n' by {
        if t != [] { assert t[|t| - 1] == a[|a| - 1]; }
      }
      LinesAppend(t, b);
      LinesAppendStep(a, p, t, b);
    }
  }

  lemma LinesAppendStep(a: string, p: string, t: string, b: string)
    requires '\n' !in p && a == p + "\n" + t
    requires Lines(t + b) == Lines(t) + Lines(b)
    ensures Lines(a + b) == Lines(a) + Lines(b)
  {
    BreakAppend(a, p, t, b);
    LinesFirst(a + b, p, t + b);
    LinesFirst(a, p, t);
    ConsAppend(StripCarriageReturn(p), Lines(t), Lines(b), Lines(a), Lines(a + b));
  }

  lemma BreakAppend(a: string, p: string, t: string, b: string)
    requires a == p + "\n" + t
    ensures a + b == p + "\n" + (t + b)
  {
  }

  lemma ConsAppend<T>(x: T, front: seq<T>, back: seq<T>, withFront: seq<T>, withBoth: seq<T>)
    requires withFront == [x] + front && withBoth == [x] + (front + back)
    ensures withBoth == withFront + back
  {
  }

  /** Splits text at its first line break. */
  lemma FirstLineBreak(a: string) returns (p: string, t: string)
    requires '\n' in a
    ensures '\n' !in p && a == p + "\n" + t
  {
    var i :| 0 <= i < |a| && a[i] == '\n' && forall j | 0 <= j < i :: a[j] != '\n' by {
      FindCharAbsentContra(a, '\n');
      var k := Find(a, "\n").value;
      forall j | 0 <= j < k ensures a[j] != '\n' { NoCharBeforeFind(a, '\n', j); }
      assert a[k] == '\n' by { assert a[k..k + 1] == "\n"; }
    }
    p, t := a[..i], a[i + 1..];
    assert a == p + [a[i]] + t;
  }

  /** The longest prefix of `s` without white space. */
  function TakeWord(s: string): (w: string)
    ensures |w| <= |s| && w == s[..|w|]
    ensures NoWhitespace(w)
    ensures |w| == |s| || IsWhitespace(s[|w|])
  {
    if s == [] || IsWhitespace(s[0]) then "" else [s[0]] + TakeWord(s[1..])
  }

  /** `str::split_whitespace`: the maximal runs of non-white-space characters. */
  function SplitWhitespace(s: string): (r: seq<string>)
    ensures forall w | w in r :: w != [] && NoWhitespace(w)
    decreases |s|
  {
    var t := TrimStart(s);
    if t == [] then []
    else
      var w := TakeWord(t);
      assert w != [] by { assert !IsWhitespace(t[0]); }
      [w] + SplitWhitespace(t[|w|..])
  }

  lemma TakeWordOfWord(w: string, rest: string)
    requires NoWhitespace(w)
    requires rest == [] || IsWhitespace(rest[0])
    ensures TakeWord(w + rest) == w
  {
    if w != [] {
      assert (w + rest)[1..] == w[1..] + rest;
      TakeWordOfWord(w[1..], rest);
    } else {
      assert w + rest == rest;
    }
  }

  lemma SplitWhitespaceWord(w: string, tail: string)
    requires w != [] && NoWhitespace(w)
    requires tail == [] || IsWhitespace(tail[0])
    ensures SplitWhitespace(w + tail) == [w] + SplitWhitespace(tail)
  {
    var s := w + tail;
    assert s[0] == w[0] && !IsWhitespace(w[0]);
    assert TrimStart(s) == s;
    TakeWordOfWord(w, tail);
    assert s[|w|..] == tail;
  }

  lemma SplitWhitespaceSpace(rest: string)
    ensures SplitWhitespace(" " + rest) == SplitWhitespace(rest)
  {
    assert (" " + rest)[1..] == rest;
    assert TrimStart(" " + rest) == TrimStart(rest);
  }

  /** Joining non-empty words with single spaces and splitting on white space gives the words back. */
  lemma {:induction false} SplitWhitespaceJoin(words: seq<string>)
    requires forall i | 0 <= i < |words| :: words[i] != [] && NoWhitespace(words[i])
    ensures SplitWhitespace(Join(words, " ")) == words
  {
    if |words| == 1 {
      SplitWhitespaceOneWord(words);
    } else if |words| > 1 {
      WordsTail(words);
      SplitWhitespaceJoin(words[1..]);
      SplitWhitespaceStep(words);
    } else {
      assert Join(words, " ") == "";
    }
  }

  lemma WordsTail(words: seq<string>)
    requires |words| > 1
    requires forall i | 0 <= i < |words| :: words[i] != [] && NoWhitespace(words[i])
    ensures forall i | 0 <= i < |words[1..]| :: words[1..][i] != [] && NoWhitespace(words[1..][i])
  {
    forall i | 0 <= i < |words[1..]| ensures words[1..][i] != [] && NoWhitespace(words[1..][i]) {
      assert words[1..][i] == words[i + 1];
    }
  }

  lemma SplitWhitespaceStep(words: seq<string>)
    requires |words| > 1 && words[0] != [] && NoWhitespace(words[0])
    requires SplitWhitespace(Join(words[1..], " ")) == words[1..]
    ensures SplitWhitespace(Join(words, " ")) == words
  {
    JoinStep(words[0], words[1..]);
    assert words == [words[0]] + words[1..];
  }

  lemma SplitWhitespaceOneWord(words: seq<string>)
    requires |words| == 1 && words[0] != [] && NoWhitespace(words[0])
    ensures SplitWhitespace(Join(words, " ")) == words
  {
    var w := words[0];
    assert Join(words, " ") == w;
    SplitWhitespaceAlone(w);
    assert words == [w];
  }

  /** A single word splits to itself. */
  lemma SplitWhitespaceAlone(w: string)
    requires w != [] && NoWhitespace(w)
    ensures SplitWhitespace(w) == [w]
  {
    var empty: string := [];
    SplitWhitespaceWord(w, empty);
    assert w + empty == w;
    assert SplitWhitespace(empty) == [] by { assert TrimStart(empty) == []; }
  }

  lemma JoinStep(w: string, tail: seq<string>)
    requires w != [] && NoWhitespace(w) && |tail| >= 1
    requires SplitWhitespace(Join(tail, " ")) == tail
    ensures SplitWhitespace(Join([w] + tail, " ")) == [w] + tail
  {
    var rest := Join(tail, " ");
    JoinCons(w, tail, " ");
    ConcatAssoc(w, " ", rest, w + " " + rest);
    SplitWhitespaceWord(w, " " + rest);
    SplitWhitespaceSpace(rest);
  }

  /** `s.split_once(c)`: the text before and after the first `c`. */
  function SplitOnce(s: string, c: char): (r: Option<(string, string)>)
    ensures r.None? <==> c !in s
    ensures r.Some? ==> c !in r.value.0 && s == r.value.0 + [c] + r.value.1
  {
    match Find(s, [c])
    case None => (if c in s then FindCharAbsentContra(s, c); None else None)
    case Some(i) =>
      assert s[i..i + 1] == [c];
      assert c !in s[..i] by {
        forall j | 0 <= j < i ensures s[..i][j] != c { NoCharBeforeFind(s, c, j); }
      }
      assert s == s[..i] + [c] + s[i + 1..];
      Some((s[..i], s[i + 1..]))
  }

  function DigitChar(d: nat): char
    requires d < 10
  {
    ('0' as int + d) as char
  }

  /** Decimal formatting of a natural number (`format!("{}", n)`). */
  function NatToString(n: nat): (r: string)
    ensures |r| >= 1 && (|r| == 1 <==> n < 10)
    ensures forall c | c in r :: '0' <= c <= '9'
  {
    if n < 10 then [DigitChar(n)] else NatToString(n / 10) + [DigitChar(n % 10)]
  }

  lemma {:induction false} NatToStringInjective(a: nat, b: nat)
    requires NatToString(a) == NatToString(b)
    ensures a == b
  {
    if a >= 10 && b >= 10 {
      var sa, sb := NatToString(a / 10), NatToString(b / 10);
      assert sa + [DigitChar(a % 10)] == sb + [DigitChar(b % 10)];
      assert |sa| == |sb|;
      assert sa == (sa + [DigitChar(a % 10)])[..|sa|];
      assert sb == (sb + [DigitChar(b % 10)])[..|sb|];
      assert DigitChar(a % 10) == DigitChar(b % 10);
      NatToStringInjective(a / 10, b / 10);
    }
  }

  /** `usize::min`. */
  function Min(a: nat, b: nat): nat {
    if a <= b then a else b
  }

  /** Number of bytes of `c` in UTF-8. */
  function Utf8Len(c: char): (n: nat)
    ensures 1 <= n <= 4
  {
    if c as int < 0x80 then 1 else if c as int < 0x800 then 2 else if c as int < 0x1_0000 then 3 else 4
  }

  /** `str::len`: the length of `s` in UTF-8 bytes. */
  function ByteLen(s: string): (n: nat)
    ensures |s| <= n <= 4 * |s|
  {
    if s == [] then 0 else Utf8Len(s[0]) + ByteLen(s[1..])
  }

  lemma {:induction false} ByteLenAppend(a: string, b: string)
    ensures ByteLen(a + b) == ByteLen(a) + ByteLen(b)
  {
    if a != [] {
      assert (a + b)[1..] == a[1..] + b;
      ByteLenAppend(a[1..], b);
    } else {
      assert a + b == b;
    }
  }

  lemma ByteLenAscii(s: string)
    requires forall i :: 0 <= i < |s| ==> s[i] as int < 0x80
    ensures ByteLen(s) == |s|
  {
  }

  /** The UTF-8 encoding of one character. */
  function EncodeChar(c: char): (r: seq<byte>)
    ensures |r| == Utf8Len(c)
  {
    var n := c as int;
    if n < 0x80 then [n as byte]
    else if n < 0x800 then [(0xC0 + n / 64) as byte, (0x80 + n % 64) as byte]
    else if n < 0x1_0000 then [(0xE0 + n / 4096) as byte, (0x80 + (n / 64) % 64) as byte, (0x80 + n % 64) as byte]
    else [(0xF0 + n / 262144) as byte, (0x80 + (n / 4096) % 64) as byte, (0x80 + (n / 64) % 64) as byte, (0x80 + n % 64) as byte]
  }

  /** `str::as_bytes`. */
  function Utf8(s: string): (r: seq<byte>)
    ensures |r| == ByteLen(s)
  {
    if s == [] then [] else EncodeChar(s[0]) + Utf8(s[1..])
  }

  /** On ASCII text the UTF-8 encoding is one byte per character, the character's code. */
  lemma {:induction false} Utf8Ascii(s: string)
    requires forall i :: 0 <= i < |s| ==> s[i] as int < 0x80
    ensures |Utf8(s)| == |s|
    ensures forall i :: 0 <= i < |s| ==> Utf8(s)[i] == s[i] as int as byte
  {
    if s != [] {
      Utf8Ascii(s[1..]);
      ByteLenAscii(s);
      assert Utf8(s) == [s[0] as int as byte] + Utf8(s[1..]);
    }
  }

  /** A byte-string literal spelling ASCII text is that text's UTF-8 encoding. */
  lemma AsciiBytes(s: string, bytes: seq<byte>)
    requires |bytes| == |s|
    requires forall i :: 0 <= i < |s| ==> s[i] as int < 0x80 && bytes[i] as int == s[i] as int
    ensures Utf8(s) == bytes
  {
    Utf8Ascii(s);
  }

  function HexDigit(d: nat): char
    requires d < 16
  {
    if d < 10 then ('0' as int + d) as char else ('a' as int + d - 10) as char
  }

  predicate IsLowerHexDigit(c: char) {
    ('0' <= c <= '9') || ('a' <= c <= 'f')
  }

  /** `hex::encode`: two lower-case hex digits per byte. */
  function HexEncode(bytes: seq<byte>): (r: string)
    ensures |r| == 2 * |bytes|
    ensures forall c | c in r :: IsLowerHexDigit(c)
  {
    if bytes == [] then ""
    else [HexDigit(bytes[0] as nat / 16), HexDigit(bytes[0] as nat % 16)] + HexEncode(bytes[1..])
  }
}
