/**
 How the server turns a received buffer into command tokens: the buffer is
 read as a C string (up to its first NUL), and `stream >> token` extracts the
 maximal runs of non-white-space characters. There is no framing and no comma
 splitting: commands are separated by white space only.
 */
module Tokenizer {

  /** The white-space set of the classic locale: space, \t, \n, \v, \f and \r. */
  predicate IsSpace(c: char) {
    c == ' ' || c == '\t' || c == '\n' || c == '\r' || c as int == 0x0B || c as int == 0x0C
  }

  predicate NoSpace(w: string) {
    forall i :: 0 <= i < |w| ==> !IsSpace(w[i])
  }

  /** A token: a non-empty string without white space. */
  predicate IsWord(w: string) {
    |w| > 0 && NoSpace(w)
  }

  predicate AllWords(ts: seq<string>) {
    forall k :: 0 <= k < |ts| ==> IsWord(ts[k])
  }

  /** A string with no NUL character. */
  predicate NoNul(s: string) {
    forall i :: 0 <= i < |s| ==> s[i] != '\0'
  }

  /** The text a `char *` buffer denotes: everything before its first NUL. */
  function CString(buf: string): (s: string)
    ensures |s| <= |buf| && s == buf[..|s|]
    ensures NoNul(s)
    ensures |s| < |buf| ==> buf[|s|] == '\0'
  {
    if |buf| == 0 || buf[0] == '\0' then "" else [buf[0]] + CString(buf[1..])
  }

  /** Length of the run of non-white-space characters that starts `s`. */
  function WordLength(s: string): (n: nat)
    ensures n <= |s|
    ensures NoSpace(s[..n])
    ensures n == |s| || IsSpace(s[n])
  {
    if |s| == 0 || IsSpace(s[0]) then 0 else 1 + WordLength(s[1..])
  }

  /** The tokens `while (stream >> token)` collects from `s`, in order. */
  function Tokenize(s: string): (ts: seq<string>)
    ensures AllWords(ts)
    decreases |s|
  {
    if |s| == 0 then []
    else if IsSpace(s[0]) then Tokenize(s[1..])
    else
      var n := WordLength(s);
      [s[..n]] + Tokenize(s[n..])
  }

  /** Tokens written back separated by single spaces, without a trailing space. */
  function JoinSpaced(ts: seq<string>): string
  {
    if |ts| == 0 then ""
    else if |ts| == 1 then ts[0]
    else ts[0] + " " + JoinSpaced(ts[1..])
  }

  /** Sum of the lengths of `ts`. */
  function TotalLength(ts: seq<string>): nat
  {
    if |ts| == 0 then 0 else |ts[0]| + TotalLength(ts[1..])
  }

  /** All tokens glued together. */
  function Concat(ts: seq<string>): string
  {
    if |ts| == 0 then "" else ts[0] + Concat(ts[1..])
  }

  /** `s` with every white-space character deleted. */
  function RemoveSpaces(s: string): string
  {
    if |s| == 0 then "" else (if IsSpace(s[0]) then "" else [s[0]]) + RemoveSpaces(s[1..])
  }

  lemma {:induction false} WordLengthOfWord(w: string, rest: string)
    requires NoSpace(w)
    requires |rest| == 0 || IsSpace(rest[0])
    ensures WordLength(w + rest) == |w|
    decreases |w|
  {
    if |w| > 0 {
      assert (w + rest)[1..] == w[1..] + rest;
      WordLengthOfWord(w[1..], rest);
    } else {
      assert w + rest == rest;
    }
  }

  /** A word followed by white space (or nothing) is extracted as one token. */
  lemma TokenizeWordThen(w: string, rest: string)
    requires IsWord(w)
    requires |rest| == 0 || IsSpace(rest[0])
    ensures Tokenize(w + rest) == [w] + Tokenize(rest)
  {
    WordLengthOfWord(w, rest);
    var s := w + rest;
    assert s[..|w|] == w;
    assert s[|w|..] == rest;
  }

  /** Tokenising tokens that were joined with single spaces gives them back. */
  lemma {:induction false} TokenizeJoinSpaced(ts: seq<string>)
    requires AllWords(ts)
    ensures Tokenize(JoinSpaced(ts)) == ts
    decreases |ts|
  {
    if |ts| == 1 {
      TokenizeWordThen(ts[0], "");
      assert ts[0] + "" == ts[0];
    } else if |ts| > 1 {
      var tail := JoinSpaced(ts[1..]);
      assert JoinSpaced(ts) == ts[0] + (" " + tail);
      TokenizeWordThen(ts[0], " " + tail);
      assert (" " + tail)[1..] == tail;
      TokenizeJoinSpaced(ts[1..]);
      assert ts == [ts[0]] + ts[1..];
    }
  }

  /** Collapsing every white-space run of `s` to one space does not change its tokens. */
  lemma TokenizeIsNormalising(s: string)
    ensures Tokenize(JoinSpaced(Tokenize(s))) == Tokenize(s)
  {
    TokenizeJoinSpaced(Tokenize(s));
  }

  /** Writing the tokens back with single spaces never gives a longer text than they came from. */
  lemma {:induction false} JoinedTokensNoLonger(s: string)
    ensures |JoinSpaced(Tokenize(s))| <= |s|
    decreases |s|
  {
    if |s| > 0 {
      if IsSpace(s[0]) {
        JoinedTokensNoLonger(s[1..]);
      } else {
        var n := WordLength(s);
        var rest := Tokenize(s[n..]);
        assert Tokenize(s) == [s[..n]] + rest;
        if rest != [] {
          assert IsSpace(s[n]);
          assert s[n..][1..] == s[n + 1..];
          assert rest == Tokenize(s[n + 1..]);
          JoinedTokensNoLonger(s[n + 1..]);
          assert ([s[..n]] + rest)[1..] == rest;
        }
      }
    }
  }

  /** The joined text is the tokens plus one separator between each adjacent pair. */
  lemma {:induction false} JoinSpacedLength(ts: seq<string>)
    requires |ts| >= 1
    ensures |JoinSpaced(ts)| == TotalLength(ts) + |ts| - 1
    decreases |ts|
  {
    if |ts| > 1 {
      JoinSpacedLength(ts[1..]);
    }
  }

  lemma {:induction false} RemoveSpacesAppend(a: string, b: string)
    ensures RemoveSpaces(a + b) == RemoveSpaces(a) + RemoveSpaces(b)
    decreases |a|
  {
    if |a| > 0 {
      assert (a + b)[1..] == a[1..] + b;
      RemoveSpacesAppend(a[1..], b);
    } else {
      assert a + b == b;
    }
  }

  lemma {:induction false} RemoveSpacesOfNoSpace(w: string)
    requires NoSpace(w)
    ensures RemoveSpaces(w) == w
    decreases |w|
  {
    if |w| > 0 {
      RemoveSpacesOfNoSpace(w[1..]);
      assert w == [w[0]] + w[1..];
    }
  }

  /** No character is lost or invented: the tokens hold exactly the non-white-space characters of `s`, in order. */
  lemma {:induction false} TokenizeKeepsContent(s: string)
    ensures Concat(Tokenize(s)) == RemoveSpaces(s)
    decreases |s|
  {
    if |s| > 0 {
      if IsSpace(s[0]) {
        TokenizeKeepsContent(s[1..]);
      } else {
        var n := WordLength(s);
        assert s == s[..n] + s[n..];
        TokenizeKeepsContent(s[n..]);
        RemoveSpacesAppend(s[..n], s[n..]);
        RemoveSpacesOfNoSpace(s[..n]);
        var ts := Tokenize(s);
        assert ts == [s[..n]] + Tokenize(s[n..]);
        assert ts[1..] == Tokenize(s[n..]);
      }
    }
  }

  /** A buffer that starts with a non-white-space character yields a first token that starts with it. */
  lemma FirstTokenStartsBuffer(s: string)
    requires |s| > 0 && !IsSpace(s[0])
    ensures |Tokenize(s)| >= 1 && Tokenize(s)[0][0] == s[0]
  {
  }

  /** A buffer holding only white space yields no token at all. */
  lemma {:induction false} BlankHasNoToken(s: string)
    requires forall i :: 0 <= i < |s| ==> IsSpace(s[i])
    ensures Tokenize(s) == []
    decreases |s|
  {
    if |s| > 0 {
      BlankHasNoToken(s[1..]);
    }
  }
}
