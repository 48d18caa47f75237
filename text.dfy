/**
 * The few Python string operations the benchmark driver relies on, over
 * `string` (a sequence of Unicode characters): `str.strip()`, `str.split(sep)`,
 * `str.split()`, `str.splitlines()` and the substring test `m in s`.
 */
module Text {

  /** Python's `str.isspace()` for one character: the characters that
      `strip()` removes and `split()` with no argument splits on. */
  predicate IsSpace(c: char) {
    || c == ' '
    || '\t' <= c <= '\r'
    || '\U{1C}' <= c <= '\U{1F}'
    || c == '\U{85}' || c == '\U{A0}' || c == '\U{1680}'
    || '\U{2000}' <= c <= '\U{200A}'
    || c == '\U{2028}' || c == '\U{2029}' || c == '\U{202F}'
    || c == '\U{205F}' || c == '\U{3000}'
  }

  /** Every character of `s` is whitespace (the empty string included). */
  predicate IsBlank(s: string) {
    forall k :: 0 <= k < |s| ==> IsSpace(s[k])
  }

  /** A token of `str.split()`: non-empty, without whitespace. */
  predicate IsWord(w: string) {
    w != [] && forall k :: 0 <= k < |w| ==> !IsSpace(w[k])
  }

  // ---------------------------------------------------------------------
  // str.strip()

  /** `s.lstrip()`: the longest suffix of `s` that does not start with whitespace. */
  function TrimStart(s: string): (r: string)
    ensures |r| <= |s| && r == s[|s| - |r|..]
    ensures r == [] || !IsSpace(r[0])
    decreases |s|
  {
    if s != [] && IsSpace(s[0]) then TrimStart(s[1..]) else s
  }

  /** `s.rstrip()`: the longest prefix of `s` that does not end with whitespace. */
  function TrimEnd(s: string): (r: string)
    ensures |r| <= |s| && r == s[..|r|]
    ensures r == [] || !IsSpace(r[|r| - 1])
    decreases |s|
  {
    if s != [] && IsSpace(s[|s| - 1]) then TrimEnd(s[..|s| - 1]) else s
  }

  /** What `lstrip` removes is whitespace. */
  lemma {:induction false} TrimStartSpaces(s: string)
    ensures forall k :: 0 <= k < |s| - |TrimStart(s)| ==> IsSpace(s[k])
    decreases |s|
  {
    if s != [] && IsSpace(s[0]) {
      TrimStartSpaces(s[1..]);
    }
  }

  /** What `rstrip` removes is whitespace. */
  lemma {:induction false} TrimEndSpaces(s: string)
    ensures forall k :: |TrimEnd(s)| <= k < |s| ==> IsSpace(s[k])
    decreases |s|
  {
    if s != [] && IsSpace(s[|s| - 1]) {
      TrimEndSpaces(s[..|s| - 1]);
    }
  }

  /** `s.strip()`. */
  function Strip(s: string): string {
    TrimEnd(TrimStart(s))
  }

  lemma {:induction false} TrimStartPadded(pad: string, x: string)
    requires IsBlank(pad)
    requires x == [] || !IsSpace(x[0])
    ensures TrimStart(pad + x) == x
  {
    if pad != [] {
      assert (pad + x)[1..] == pad[1..] + x;
      TrimStartPadded(pad[1..], x);
    } else {
      assert pad + x == x;
    }
  }

  lemma {:induction false} TrimEndPadded(x: string, pad: string)
    requires IsBlank(pad)
    requires x == [] || !IsSpace(x[|x| - 1])
    ensures TrimEnd(x + pad) == x
  {
    if pad != [] {
      assert (x + pad)[..|x + pad| - 1] == x + pad[..|pad| - 1];
      TrimEndPadded(x, pad[..|pad| - 1]);
    } else {
      assert x + pad == x;
    }
  }

  /** `strip()` removes exactly the surrounding whitespace: whatever text
      neither starts nor ends with whitespace comes back unchanged from
      any amount of padding on either side. */
  lemma StripPadded(before: string, body: string, after: string)
    requires IsBlank(before) && IsBlank(after)
    requires body == [] || (!IsSpace(body[0]) && !IsSpace(body[|body| - 1]))
    ensures Strip(before + body + after) == body
  {
    if body == [] {
      assert before + body + after == before + after;
      assert IsBlank(before + after);
      TrimStartPadded(before + after, []);
      assert before + after + [] == before + after;
    } else {
      assert before + body + after == before + (body + after);
      TrimStartPadded(before, body + after);
      TrimEndPadded(body, after);
    }
  }

  /** Blank text in front does not change what `lstrip()` leaves. */
  lemma {:induction false} TrimStartBlank(pad: string, x: string)
    requires IsBlank(pad)
    ensures TrimStart(pad + x) == TrimStart(x)
    decreases |pad|
  {
    if pad != [] {
      assert (pad + x)[1..] == pad[1..] + x;
      TrimStartBlank(pad[1..], x);
    } else {
      assert pad + x == x;
    }
  }

  /** Blank text behind does not change what `rstrip()` leaves. */
  lemma {:induction false} TrimEndBlank(x: string, pad: string)
    requires IsBlank(pad)
    ensures TrimEnd(x + pad) == TrimEnd(x)
    decreases |pad|
  {
    if pad != [] {
      assert (x + pad)[..|x + pad| - 1] == x + pad[..|pad| - 1];
      TrimEndBlank(x, pad[..|pad| - 1]);
    } else {
      assert x + pad == x;
    }
  }

  /** Once `lstrip()` has reached a non-blank character, what follows is
      kept as it is. */
  lemma {:induction false} TrimStartAppend(x: string, y: string)
    requires TrimStart(x) != []
    ensures TrimStart(x + y) == TrimStart(x) + y
    decreases |x|
  {
    var xy := x + y;
    assert xy[0] == x[0];
    if IsSpace(x[0]) {
      assert TrimStart(x) == TrimStart(x[1..]);
      assert xy[1..] == x[1..] + y;
      assert TrimStart(xy) == TrimStart(x[1..] + y);
      TrimStartAppend(x[1..], y);
    } else {
      assert TrimStart(x) == x;
      assert TrimStart(xy) == xy;
    }
  }

  /** Blank text on either side does not change what `strip()` leaves. */
  lemma StripBlankAround(before: string, x: string, after: string)
    requires IsBlank(before) && IsBlank(after)
    ensures Strip(before + x + after) == Strip(x)
  {
    assert before + x + after == before + (x + after);
    TrimStartBlank(before, x + after);
    var t := TrimStart(x);
    if t == [] {
      TrimStartSpaces(x);
      assert IsBlank(x + after);
      TrimStartBlank(x + after, []);
      assert x + after + [] == x + after;
    } else {
      TrimStartAppend(x, after);
      TrimEndBlank(t, after);
    }
  }

  // ---------------------------------------------------------------------
  // str.split(sep) and its inverse sep.join(parts)

  /** Index of the first `c` in `s`, or `|s|` when there is none. */
  function IndexOf(s: string, c: char): (i: nat)
    ensures i <= |s|
    ensures i < |s| ==> s[i] == c
    ensures c !in s[..i]
  {
    if s == [] || s[0] == c then 0 else 1 + IndexOf(s[1..], c)
  }

  lemma {:induction false} IndexOfAt(a: string, b: string, c: char)
    requires c !in a
    requires b == [] || b[0] == c
    ensures IndexOf(a + b, c) == |a|
  {
    if a != [] {
      assert (a + b)[0] == a[0];
      assert (a + b)[1..] == a[1..] + b;
      IndexOfAt(a[1..], b, c);
    } else {
      assert a + b == b;
    }
  }

  lemma {:induction false} IndexOfPrepend(pad: string, x: string, c: char)
    requires c !in pad
    ensures IndexOf(pad + x, c) == |pad| + IndexOf(x, c)
    decreases |pad|
  {
    if pad != [] {
      assert (pad + x)[0] == pad[0];
      assert (pad + x)[1..] == pad[1..] + x;
      IndexOfPrepend(pad[1..], x, c);
    } else {
      assert pad + x == x;
    }
  }

  /** `sep.join(parts)`. */
  function Join(parts: seq<string>, sep: char): string
    decreases |parts|
  {
    if parts == [] then []
    else if |parts| == 1 then parts[0]
    else parts[0] + [sep] + Join(parts[1..], sep)
  }

  /** `s.split(sep)` for a one-character separator: the pieces of `s` between
      consecutive occurrences of `sep`; there is always at least one. */
  function Split(s: string, sep: char): (parts: seq<string>)
    ensures |parts| >= 1
    decreases |s|
  {
    var i := IndexOf(s, sep);
    if i == |s| then [s] else [s[..i]] + Split(s[i + 1..], sep)
  }

  /** No part of `s.split(sep)` contains the separator. */
  lemma {:induction false} SplitHasNoSep(s: string, sep: char)
    ensures forall k :: 0 <= k < |Split(s, sep)| ==> sep !in Split(s, sep)[k]
    decreases |s|
  {
    var i := IndexOf(s, sep);
    if i < |s| {
      var tl := s[i + 1..];
      SplitHasNoSep(tl, sep);
      var ps := Split(s, sep);
      var rest := Split(tl, sep);
      assert ps == [s[..i]] + rest;
      forall k | 0 <= k < |ps|
        ensures sep !in ps[k]
      {
        if k > 0 {
          assert ps[k] == rest[k - 1];
        }
      }
    } else {
      assert s[..i] == s;
    }
  }

  /** Joining the parts of `s.split(sep)` with `sep` gives `s` back. */
  lemma {:induction false} JoinSplit(s: string, sep: char)
    ensures Join(Split(s, sep), sep) == s
    decreases |s|
  {
    var i := IndexOf(s, sep);
    if i < |s| {
      var tl := s[i + 1..];
      JoinSplit(tl, sep);
      var ps := Split(s, sep);
      assert ps == [s[..i]] + Split(tl, sep);
      assert |ps| >= 2 && ps[0] == s[..i] && ps[1..] == Split(tl, sep);
      assert Join(ps, sep) == s[..i] + [sep] + Join(Split(tl, sep), sep);
      assert s == s[..i] + [sep] + tl;
    }
  }

  /** Text without the separator is a single part. */
  lemma SplitWhole(x: string, sep: char)
    requires sep !in x
    ensures Split(x, sep) == [x]
  {
    assert IndexOf(x, sep) == |x|;
  }

  /** Separator-free text in front of `x` becomes part of its first part. */
  lemma SplitPrepend(pad: string, x: string, sep: char)
    requires sep !in pad
    ensures Split(pad + x, sep) == [pad + Split(x, sep)[0]] + Split(x, sep)[1..]
  {
    var i := IndexOf(x, sep);
    if i == |x| {
      assert x[..i] == x;
      SplitWhole(x, sep);
      SplitWhole(pad + x, sep);
    } else {
      var a := x[..i];
      var b := x[i + 1..];
      assert x == a + [sep] + b;
      assert pad + x == (pad + a) + [sep] + b;
      SplitAfterFirst(a, b, sep);
      SplitAfterFirst(pad + a, b, sep);
    }
  }

  /** Padding the last of `[a] + qs` is padding the last of `qs`. */
  lemma PadLastCons(a: string, qs: seq<string>, pad: string)
    requires |qs| >= 1
    ensures var ps := [a] + qs;
      [a] + (qs[..|qs| - 1] + [qs[|qs| - 1] + pad]) == ps[..|ps| - 1] + [ps[|ps| - 1] + pad]
  {
    var ps := [a] + qs;
    assert ps[..|ps| - 1] == [a] + qs[..|qs| - 1];
  }

  /** The step of `SplitAppend`: one separator-free part in front. */
  lemma SplitAppendCons(a: string, b: string, pad: string, sep: char)
    requires sep !in a
    requires var qs := Split(b, sep);
      Split(b + pad, sep) == qs[..|qs| - 1] + [qs[|qs| - 1] + pad]
    ensures var ps := Split(a + [sep] + b, sep);
      Split(a + [sep] + b + pad, sep) == ps[..|ps| - 1] + [ps[|ps| - 1] + pad]
  {
    SplitAfterFirst(a, b, sep);
    assert a + [sep] + b + pad == a + [sep] + (b + pad);
    SplitAfterFirst(a, b + pad, sep);
    PadLastCons(a, Split(b, sep), pad);
  }

  /** Separator-free text behind `x` becomes part of its last part. */
  lemma {:induction false} SplitAppend(x: string, pad: string, sep: char)
    requires sep !in pad
    ensures var ps := Split(x, sep);
      Split(x + pad, sep) == ps[..|ps| - 1] + [ps[|ps| - 1] + pad]
    decreases |x|
  {
    if sep !in x {
      SplitWhole(x, sep);
      assert sep !in x + pad;
      SplitWhole(x + pad, sep);
    } else {
      var i := IndexOf(x, sep);
      var a := x[..i];
      var b := x[i + 1..];
      assert x == a + [sep] + b;
      SplitAppend(b, pad, sep);
      SplitAppendCons(a, b, pad, sep);
    }
  }

  /** Padding the first part in front and the last part behind with blank
      text leaves every stripped part as it was. */
  lemma PadEnds(pre: string, ps: seq<string>, post: string)
    requires IsBlank(pre) && IsBlank(post) && |ps| >= 1
    ensures var qs := ps[..|ps| - 1] + [ps[|ps| - 1] + post];
      var rs := [pre + qs[0]] + qs[1..];
      |rs| == |ps| && forall k :: 0 <= k < |ps| ==> Strip(rs[k]) == Strip(ps[k])
  {
    var n := |ps|;
    var qs := ps[..n - 1] + [ps[n - 1] + post];
    var rs := [pre + qs[0]] + qs[1..];
    forall k | 0 <= k < n
      ensures Strip(rs[k]) == Strip(ps[k])
    {
      if n == 1 {
        assert rs[k] == pre + ps[k] + post;
        StripBlankAround(pre, ps[k], post);
      } else if k == 0 {
        assert rs[k] == pre + ps[k] + [];
        StripBlankAround(pre, ps[k], []);
      } else if k == n - 1 {
        assert rs[k] == [] + ps[k] + post;
        StripBlankAround([], ps[k], post);
      } else {
        assert rs[k] == ps[k];
      }
    }
  }

  /** Blank text around `m` only pads its first and last parts. */
  lemma SplitAround(pre: string, m: string, post: string, sep: char)
    requires IsBlank(pre) && IsBlank(post) && !IsSpace(sep)
    ensures |Split(pre + m + post, sep)| == |Split(m, sep)|
    ensures forall k :: 0 <= k < |Split(m, sep)| ==>
      Strip(Split(pre + m + post, sep)[k]) == Strip(Split(m, sep)[k])
  {
    assert sep !in pre && sep !in post;
    SplitAppend(m, post, sep);
    assert pre + m + post == pre + (m + post);
    SplitPrepend(pre, m + post, sep);
    PadEnds(pre, Split(m, sep), post);
  }

  /** `s` is `s.lstrip()` with blank text in front. */
  lemma TrimStartParts(s: string) returns (pre: string)
    ensures IsBlank(pre) && s == pre + TrimStart(s)
  {
    var a := TrimStart(s);
    TrimStartSpaces(s);
    pre := s[..|s| - |a|];
    forall k | 0 <= k < |pre|
      ensures IsSpace(pre[k])
    {
      assert pre[k] == s[k];
    }
  }

  /** `s` is `s.rstrip()` with blank text behind. */
  lemma TrimEndParts(s: string) returns (post: string)
    ensures IsBlank(post) && s == TrimEnd(s) + post
  {
    var m := TrimEnd(s);
    TrimEndSpaces(s);
    post := s[|m|..];
    forall k | 0 <= k < |post|
      ensures IsSpace(post[k])
    {
      assert post[k] == s[|m| + k];
    }
  }

  /** `s` is `s.strip()` with blank text on either side. */
  lemma StripParts(s: string) returns (pre: string, post: string)
    ensures IsBlank(pre) && IsBlank(post)
    ensures s == pre + Strip(s) + post
  {
    pre := TrimStartParts(s);
    post := TrimEndParts(TrimStart(s));
  }

  /** `s.strip().split(sep)` has the parts of `s.split(sep)`, up to blank
      text around each part: stripping the parts gives the same texts. */
  lemma SplitStrip(s: string, sep: char)
    requires !IsSpace(sep)
    ensures |Split(Strip(s), sep)| == |Split(s, sep)|
    ensures forall k :: 0 <= k < |Split(s, sep)| ==>
      Strip(Split(Strip(s), sep)[k]) == Strip(Split(s, sep)[k])
  {
    var pre, post := StripParts(s);
    SplitAround(pre, Strip(s), post, sep);
  }

  /** Joining nonempty parts starts with the first part's first character
      and ends with the last part's last character. */
  lemma {:induction false} JoinEnds(parts: seq<string>, sep: char)
    requires |parts| >= 1
    requires forall k :: 0 <= k < |parts| ==> parts[k] != []
    ensures var s := Join(parts, sep); var last := parts[|parts| - 1];
      s != [] && s[0] == parts[0][0] && s[|s| - 1] == last[|last| - 1]
    decreases |parts|
  {
    if |parts| > 1 {
      JoinEnds(parts[1..], sep);
    }
  }

  /** `Split` is the inverse of `Join`: separator-free parts are recovered
      exactly from their joined text. */
  lemma {:induction false} SplitJoin(parts: seq<string>, sep: char)
    requires |parts| >= 1
    requires forall k :: 0 <= k < |parts| ==> sep !in parts[k]
    ensures Split(Join(parts, sep), sep) == parts
    decreases |parts|
  {
    if |parts| == 1 {
      IndexOfAt(parts[0], [], sep);
      assert parts[0] + [] == parts[0];
    } else {
      var s := Join(parts, sep);
      var rest := Join(parts[1..], sep);
      assert s == parts[0] + ([sep] + rest);
      IndexOfAt(parts[0], [sep] + rest, sep);
      assert s[..|parts[0]|] == parts[0];
      assert s[|parts[0]| + 1..] == rest;
      var tl := parts[1..];
      assert forall k :: 0 <= k < |tl| ==> tl[k] == parts[k + 1];
      SplitJoin(tl, sep);
      assert parts == [parts[0]] + tl;
    }
  }

  /** There are at least two parts exactly when the separator occurs. */
  lemma SplitCount(s: string, sep: char)
    ensures |Split(s, sep)| >= 2 <==> sep in s
  {
    var i := IndexOf(s, sep);
    if i < |s| {
      assert Split(s, sep) == [s[..i]] + Split(s[i + 1..], sep);
    }
  }

  /** The first part ends at the first separator, and the other parts are
      those of the text after it. */
  lemma SplitAfterFirst(tag: string, after: string, sep: char)
    requires sep !in tag
    ensures Split(tag + [sep] + after, sep) == [tag] + Split(after, sep)
  {
    var s := tag + [sep] + after;
    assert s == tag + ([sep] + after);
    IndexOfAt(tag, [sep] + after, sep);
    assert s[..|tag|] == tag;
    assert s[|tag| + 1..] == after;
  }

  lemma SplitHead(mid: string, rest: string, sep: char)
    requires sep !in mid
    requires rest == [] || rest[0] == sep
    ensures Split(mid + rest, sep)[0] == mid
  {
    IndexOfAt(mid, rest, sep);
    assert (mid + rest)[..|mid|] == mid;
  }

  /** The second part of `s.split(sep)` is the text between the first and
      the second separator (or the end of `s`), whatever follows. */
  lemma SplitSecond(tag: string, mid: string, rest: string, sep: char)
    requires sep !in tag && sep !in mid
    requires rest == [] || rest[0] == sep
    ensures |Split(tag + [sep] + mid + rest, sep)| >= 2
    ensures Split(tag + [sep] + mid + rest, sep)[1] == mid
  {
    assert tag + [sep] + mid + rest == tag + [sep] + (mid + rest);
    SplitAfterFirst(tag, mid + rest, sep);
    SplitHead(mid, rest, sep);
  }

  // ---------------------------------------------------------------------
  // str.split() with no argument

  /** The scan behind `s.split()`: `cur` is the word read so far; a
      whitespace character ends it, and runs of whitespace yield nothing. */
  function Scan(s: string, cur: string): seq<string>
    decreases |s|
  {
    if s == [] then (if cur == [] then [] else [cur])
    else if IsSpace(s[0]) then (if cur == [] then [] else [cur]) + Scan(s[1..], [])
    else Scan(s[1..], cur + [s[0]])
  }

  /** `s.split()`: the maximal whitespace-free runs of `s`, in order. */
  function Words(s: string): seq<string> {
    Scan(s, [])
  }

  lemma {:induction false} ScanAreWords(s: string, cur: string)
    requires cur == [] || IsWord(cur)
    ensures forall k :: 0 <= k < |Scan(s, cur)| ==> IsWord(Scan(s, cur)[k])
    decreases |s|
  {
    if s != [] {
      if IsSpace(s[0]) {
        ScanAreWords(s[1..], []);
      } else {
        ScanAreWords(s[1..], cur + [s[0]]);
      }
    }
  }

  /** Every token is a proper word. */
  lemma WordsAreWords(s: string)
    ensures forall k :: 0 <= k < |Words(s)| ==> IsWord(Words(s)[k])
  {
    ScanAreWords(s, []);
  }

  lemma {:induction false} ScanBlank(pad: string, x: string)
    requires IsBlank(pad)
    ensures Scan(pad + x, []) == Scan(x, [])
    decreases |pad|
  {
    if pad == [] {
      assert pad + x == x;
    } else {
      assert (pad + x)[1..] == pad[1..] + x;
      ScanBlank(pad[1..], x);
    }
  }

  lemma {:induction false} ScanWord(w: string, tail: string, cur: string)
    requires forall k :: 0 <= k < |w| ==> !IsSpace(w[k])
    ensures Scan(w + tail, cur) == Scan(tail, cur + w)
    decreases |w|
  {
    if w == [] {
      assert w + tail == tail;
      assert cur + w == cur;
    } else {
      assert (w + tail)[1..] == w[1..] + tail;
      ScanWord(w[1..], tail, cur + [w[0]]);
      assert cur + [w[0]] + w[1..] == cur + w;
    }
  }

  /** Whitespace-only text has no words. */
  lemma WordsBlank(s: string)
    requires IsBlank(s)
    ensures Words(s) == []
  {
    ScanBlank(s, []);
    assert s + [] == s;
  }

  /** Leading whitespace is skipped and one word is read up to the next
      whitespace character or the end. */
  lemma WordsCons(pad: string, w: string, tail: string)
    requires IsBlank(pad) && IsWord(w)
    requires tail == [] || IsSpace(tail[0])
    ensures Words(pad + w + tail) == [w] + Words(tail)
  {
    assert pad + w + tail == pad + (w + tail);
    ScanBlank(pad, w + tail);
    ScanWord(w, tail, []);
    assert [] + w == w;
    if tail != [] {
      assert Scan(tail, w) == [w] + Scan(tail[1..], []);
    }
  }

  /** A number and a unit separated by whitespace are the first two words. */
  lemma WordsPair(pad: string, first: string, gap: string, second: string, tail: string)
    requires IsBlank(pad) && IsWord(first) && IsBlank(gap) && gap != [] && IsWord(second)
    requires tail == [] || IsSpace(tail[0])
    ensures Words(pad + first + gap + second + tail) == [first, second] + Words(tail)
  {
    var after := gap + second + tail;
    assert pad + first + gap + second + tail == pad + first + after;
    WordsCons(pad, first, after);
    WordsCons(gap, second, tail);
  }

  lemma {:induction false} ScanBlankTail(s: string, blank: string, cur: string)
    requires IsBlank(blank)
    ensures Scan(s + blank, cur) == Scan(s, cur)
    decreases |s|
  {
    if s == [] {
      assert s + blank == blank;
      if blank != [] {
        WordsBlank(blank[1..]);
      }
    } else {
      assert (s + blank)[1..] == s[1..] + blank;
      if IsSpace(s[0]) {
        ScanBlankTail(s[1..], blank, []);
      } else {
        ScanBlankTail(s[1..], blank, cur + [s[0]]);
      }
    }
  }

  lemma WordsTrimStart(s: string)
    ensures Words(TrimStart(s)) == Words(s)
  {
    var t := TrimStart(s);
    var pad := s[..|s| - |t|];
    TrimStartSpaces(s);
    assert s == pad + t;
    ScanBlank(pad, t);
  }

  lemma WordsTrimEnd(s: string)
    ensures Words(TrimEnd(s)) == Words(s)
  {
    var r := TrimEnd(s);
    var blank := s[|r|..];
    TrimEndSpaces(s);
    assert s == r + blank;
    ScanBlankTail(r, blank, []);
  }

  /** Surrounding whitespace never changes the words: `s.strip().split()`
      equals `s.split()`. */
  lemma WordsStrip(s: string)
    ensures Words(Strip(s)) == Words(s)
  {
    WordsTrimStart(s);
    WordsTrimEnd(TrimStart(s));
  }

  // ---------------------------------------------------------------------
  // str.splitlines()

  /** The characters at which Python's `str.splitlines()` ends a line. */
  const LINE_BREAKS: set<char> := {
    '\n', '\r', '\U{B}', '\U{C}', '\U{1C}', '\U{1D}', '\U{1E}', '\U{85}', '\U{2028}', '\U{2029}'
  }

  predicate IsLineBreak(c: char) {
    c in LINE_BREAKS
  }

  predicate NoBreak(l: string) {
    forall k :: 0 <= k < |l| ==> !IsLineBreak(l[k])
  }

  /** Index of the first line break in `s`, or `|s|` when there is none. */
  function BreakAt(s: string): (i: nat)
    ensures i <= |s|
    ensures i < |s| ==> IsLineBreak(s[i])
    ensures NoBreak(s[..i])
  {
    if s == [] || IsLineBreak(s[0]) then 0 else 1 + BreakAt(s[1..])
  }

  /** `s.splitlines()`: the lines of `s` without their terminators; `\r\n`
      ends a single line, and a final terminator opens no empty last line. */
  function Lines(s: string): seq<string>
    decreases |s|
  {
    if s == [] then []
    else
      var i := BreakAt(s);
      if i == |s| then [s]
      else
        var next := if s[i] == '\r' && i + 1 < |s| && s[i + 1] == '\n' then i + 2 else i + 1;
        [s[..i]] + Lines(s[next..])
  }

  /** No line contains a line break. */
  lemma {:induction false} LinesHaveNoBreaks(s: string)
    ensures forall k :: 0 <= k < |Lines(s)| ==> NoBreak(Lines(s)[k])
    decreases |s|
  {
    if s != [] {
      var i := BreakAt(s);
      var lines := Lines(s);
      if i < |s| {
        var next := if s[i] == '\r' && i + 1 < |s| && s[i + 1] == '\n' then i + 2 else i + 1;
        var tl := Lines(s[next..]);
        LinesHaveNoBreaks(s[next..]);
        assert lines == [s[..i]] + tl;
        forall k | 0 <= k < |lines|
          ensures NoBreak(lines[k])
        {
          if k > 0 {
            assert lines[k] == tl[k - 1];
          }
        }
      } else {
        assert lines == [s];
        assert s[..i] == s;
      }
    }
  }

  /** Lines each terminated by `\n`. */
  function Unlines(ls: seq<string>): string {
    if ls == [] then [] else ls[0] + "\n" + Unlines(ls[1..])
  }

  lemma {:induction false} BreakAtOf(l: string, tail: string)
    requires NoBreak(l)
    requires tail == [] || IsLineBreak(tail[0])
    ensures BreakAt(l + tail) == |l|
    decreases |l|
  {
    if l != [] {
      assert (l + tail)[1..] == l[1..] + tail;
      BreakAtOf(l[1..], tail);
    } else {
      assert l + tail == tail;
    }
  }

  /** A break-free line ended by `\n` is read as one line, then the rest. */
  lemma LinesCons(l: string, rest: string)
    requires NoBreak(l)
    ensures Lines(l + "\n" + rest) == [l] + Lines(rest)
  {
    var s := l + "\n" + rest;
    assert s == l + ("\n" + rest);
    BreakAtOf(l, "\n" + rest);
    assert s[|l|] == '\n';
    assert s[..|l|] == l;
    assert s[|l| + 1..] == rest;
  }

  /** `splitlines()` recovers newline-terminated lines exactly. */
  lemma {:induction false} LinesUnlines(ls: seq<string>)
    requires forall k :: 0 <= k < |ls| ==> NoBreak(ls[k])
    ensures Lines(Unlines(ls)) == ls
    decreases |ls|
  {
    if ls != [] {
      LinesCons(ls[0], Unlines(ls[1..]));
      LinesUnlines(ls[1..]);
      assert ls == [ls[0]] + ls[1..];
    }
  }

  // ---------------------------------------------------------------------
  // The substring test `m in s`

  predicate Contains(s: string, m: string) {
    exists i :: 0 <= i <= |s| - |m| && m <= s[i..]
  }
}
