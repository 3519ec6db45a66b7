/**
 * The string helpers the dashboard uses on names and form fields:
 * `name.split(" ")`, the two-letter avatar `initials`, and `String.prototype.trim`.
 */
module Text {
  import opened Capped

  /** Number of U+0020 space characters in `s`. */
  function CountSpaces(s: string): nat {
    if |s| == 0 then 0 else (if s[0] == ' ' then 1 else 0) + CountSpaces(s[1..])
  }

  /** The pieces glued back together with one space between neighbours. */
  function Join(pieces: seq<string>): string
    requires |pieces| >= 1
  {
    if |pieces| == 1 then pieces[0] else pieces[0] + " " + Join(pieces[1..])
  }

  /** `s.split(" ")`: the pieces between U+0020 characters, empty pieces included. */
  function Split(s: string): (r: seq<string>)
    ensures |r| == CountSpaces(s) + 1
    ensures forall i :: 0 <= i < |r| ==> ' ' !in r[i]
    ensures Join(r) == s
  {
    if |s| == 0 then [""]
    else
      var rest := Split(s[1..]);
      if s[0] == ' ' then
        assert s == " " + s[1..];
        [""] + rest
      else
        JoinConsChar(s[0], rest);
        assert s == [s[0]] + s[1..];
        [[s[0]] + rest[0]] + rest[1..]
  }

  /** Prepending a character to the first piece prepends it to the joined string. */
  lemma {:induction false} JoinConsChar(c: char, pieces: seq<string>)
    requires |pieces| >= 1
    ensures Join([[c] + pieces[0]] + pieces[1..]) == [c] + Join(pieces)
  {
    var q := [[c] + pieces[0]] + pieces[1..];
    assert q[0] == [c] + pieces[0];
    assert q[1..] == pieces[1..];
    if |pieces| > 1 {
      calc {
        Join(q);
        q[0] + " " + Join(q[1..]);
        ([c] + pieces[0]) + " " + Join(pieces[1..]);
        { assert ([c] + pieces[0]) + " " + Join(pieces[1..]) == [c] + (pieces[0] + " " + Join(pieces[1..])); }
        [c] + Join(pieces);
      }
    }
  }

  /** Number of empty strings among `pieces`. */
  function CountEmpty(pieces: seq<string>): nat {
    if |pieces| == 0 then 0 else (if |pieces[0]| == 0 then 1 else 0) + CountEmpty(pieces[1..])
  }

  /**
   * `pieces.filter(Boolean)`: the pieces that are not empty, in order. Every
   * non-empty piece is kept, and only the empty ones are dropped.
   */
  function NonEmpty(pieces: seq<string>): (r: seq<string>)
    ensures forall i :: 0 <= i < |r| ==> |r[i]| > 0
    ensures |r| == |pieces| - CountEmpty(pieces)
  {
    if |pieces| == 0 then []
    else
      var rest := NonEmpty(pieces[1..]);
      if |pieces[0]| == 0 then rest
      else [pieces[0]] + rest
  }

  /** The kept pieces are exactly the non-empty ones. */
  lemma {:induction false} NonEmptyMembers(pieces: seq<string>)
    ensures forall w :: w in NonEmpty(pieces) <==> w in pieces && |w| > 0
  {
    if |pieces| > 0 {
      NonEmptyMembers(pieces[1..]);
      assert pieces == [pieces[0]] + pieces[1..];
    }
  }

  /** Filtering distributes over concatenation, so the kept pieces stay in their order. */
  lemma {:induction false} NonEmptyAppend(a: seq<string>, b: seq<string>)
    ensures NonEmpty(a + b) == NonEmpty(a) + NonEmpty(b)
  {
    if |a| > 0 {
      assert (a + b)[0] == a[0];
      assert (a + b)[1..] == a[1..] + b;
      NonEmptyAppend(a[1..], b);
    } else {
      assert a + b == b;
    }
  }

  /** A single piece survives the filter exactly when it is not empty. */
  lemma NonEmptySingle(w: string)
    ensures NonEmpty([w]) == if |w| > 0 then [w] else []
  {
    assert [w][1..] == [];
  }

  /** ASCII upper-casing of one character; every other character is left as it is. */
  function UpperChar(c: char): char {
    if 'a' <= c <= 'z' then (c as int - 32) as char else c
  }

  /** The first character of each word, upper-cased. */
  function Heads(words: seq<string>): (r: string)
    requires forall i :: 0 <= i < |words| ==> |words[i]| > 0
    ensures |r| == |words|
  {
    if |words| == 0 then [] else [UpperChar(words[0][0])] + Heads(words[1..])
  }

  /** The avatar initials: first letters of the first two space-separated words, one per word. */
  function Initials(name: string): (r: string)
    ensures |r| == Min(2, |NonEmpty(Split(name))|)
    ensures |r| <= 2
  {
    var words := NonEmpty(Split(name));
    Heads(words[..Min(2, |words|)])
  }

  /**
   * What the avatar shows: the initials, or "ST" when the name has none, that
   * is when it holds nothing but spaces. Always one or two characters.
   */
  function AvatarText(name: string): (r: string)
    ensures 1 <= |r| <= 2
    ensures !HasNonSpace(name) ==> r == "ST"
    ensures HasNonSpace(name) ==> r == Initials(name)
  {
    InitialsSpec(name);
    var ini := Initials(name);
    if |ini| == 0 then "ST" else ini
  }

  /**
   * Direct reading of the first letters of words: a character starts a word
   * when it is not a space and it is at the front or follows a space.
   * `atStart` says whether the previous character was a space (or absent).
   */
  function WordStarts(s: string, atStart: bool): string {
    if |s| == 0 then []
    else if s[0] == ' ' then WordStarts(s[1..], true)
    else (if atStart then [s[0]] else []) + WordStarts(s[1..], false)
  }

  /** True when `s` has at least one character other than U+0020. */
  predicate HasNonSpace(s: string) {
    exists i :: 0 <= i < |s| && s[i] != ' '
  }

  /** Every character upper-cased, one for one. */
  function UpperAll(s: string): (r: string)
    ensures |r| == |s|
  {
    if |s| == 0 then [] else [UpperChar(s[0])] + UpperAll(s[1..])
  }

  /** Splitting on spaces, dropping empty pieces and taking each piece's first letter reads off the word starts. */
  lemma {:induction false} HeadsOfSplit(s: string)
    ensures Heads(NonEmpty(Split(s))) == UpperAll(WordStarts(s, true))
    decreases |s|, 1
  {
    if |s| == 0 {
    } else {
      var rest := Split(s[1..]);
      if s[0] == ' ' {
        assert Split(s) == [""] + rest;
        assert ([""] + rest)[1..] == rest;
        HeadsOfSplit(s[1..]);
      } else {
        var pieces := [[s[0]] + rest[0]] + rest[1..];
        assert Split(s) == pieces;
        assert pieces[1..] == rest[1..];
        HeadsOfSplitTail(s[1..]);
        var ws := WordStarts(s[1..], false);
        assert WordStarts(s, true) == [s[0]] + ws;
        assert ([s[0]] + ws)[1..] == ws;
      }
    }
  }

  /** The same, for the pieces after the first, when `s` continues a word. */
  lemma {:induction false} HeadsOfSplitTail(s: string)
    ensures Heads(NonEmpty(Split(s)[1..])) == UpperAll(WordStarts(s, false))
    decreases |s|, 0
  {
    if |s| == 0 {
    } else {
      var rest := Split(s[1..]);
      if s[0] == ' ' {
        assert Split(s) == [""] + rest;
        assert ([""] + rest)[1..] == rest;
        HeadsOfSplit(s[1..]);
      } else {
        var pieces := [[s[0]] + rest[0]] + rest[1..];
        assert Split(s) == pieces;
        assert pieces[1..] == rest[1..];
        assert Split(s)[1..] == rest[1..];
        HeadsOfSplitTail(s[1..]);
        assert WordStarts(s, false) == WordStarts(s[1..], false);
      }
    }
  }

  /** Taking the first letters of the first `k` words is taking the first `k` first letters. */
  lemma {:induction false} HeadsPrefix(words: seq<string>, k: nat)
    requires k <= |words|
    requires forall i :: 0 <= i < |words| ==> |words[i]| > 0
    ensures Heads(words[..k]) == Heads(words)[..k]
  {
    if k > 0 {
      assert words[..k][1..] == words[1..][..k - 1];
      HeadsPrefix(words[1..], k - 1);
    }
  }

  /** A string has no word starts exactly when it is all spaces. */
  lemma {:induction false} WordStartsEmpty(s: string)
    ensures WordStarts(s, true) == [] <==> !HasNonSpace(s)
  {
    if |s| > 0 {
      if s[0] == ' ' {
        WordStartsEmpty(s[1..]);
        if HasNonSpace(s) {
          var i :| 0 <= i < |s| && s[i] != ' ';
          assert s[1..][i - 1] != ' ';
        }
        if HasNonSpace(s[1..]) {
          var i :| 0 <= i < |s[1..]| && s[1..][i] != ' ';
          assert s[i + 1] != ' ';
        }
      } else {
        assert s[0] != ' ';
      }
    }
  }

  /**
   * The initials are the upper-cased first letters of the first two words,
   * read directly off the name; there are at most two, and none exactly when
   * the name holds nothing but spaces.
   */
  lemma InitialsSpec(name: string)
    ensures var starts := WordStarts(name, true);
            Initials(name) == UpperAll(starts)[..Min(2, |starts|)]
    ensures |Initials(name)| <= 2
    ensures Initials(name) == "" <==> !HasNonSpace(name)
  {
    var words := NonEmpty(Split(name));
    HeadsOfSplit(name);
    HeadsPrefix(words, Min(2, |words|));
    WordStartsEmpty(name);
  }

  /** The characters `String.prototype.trim` removes: ECMAScript WhiteSpace and LineTerminator. */
  predicate IsJsSpace(c: char) {
    var n := c as int;
    n == 0x09 || n == 0x0A || n == 0x0B || n == 0x0C || n == 0x0D || n == 0x20
    || n == 0xA0 || n == 0x1680 || (0x2000 <= n <= 0x200A) || n == 0x2028
    || n == 0x2029 || n == 0x202F || n == 0x205F || n == 0x3000 || n == 0xFEFF
  }

  /** Length of the whitespace run at the front of `s`. */
  function LeadingSpaces(s: string): (n: nat)
    ensures n <= |s|
    ensures forall k :: 0 <= k < n ==> IsJsSpace(s[k])
    ensures n < |s| ==> !IsJsSpace(s[n])
  {
    if |s| == 0 || !IsJsSpace(s[0]) then 0 else 1 + LeadingSpaces(s[1..])
  }

  /** Length of the whitespace run at the back of `s`. */
  function TrailingSpaces(s: string): (n: nat)
    ensures n <= |s|
    ensures forall k :: |s| - n <= k < |s| ==> IsJsSpace(s[k])
    ensures n < |s| ==> !IsJsSpace(s[|s| - 1 - n])
  {
    if |s| == 0 || !IsJsSpace(s[|s| - 1]) then 0 else 1 + TrailingSpaces(s[..|s| - 1])
  }

  /**
   * `s.trim()`: the part of `s` between its leading and trailing whitespace.
   * Nothing but whitespace is removed, and what is left starts and ends with
   * a non-space character (or is empty).
   */
  function Trim(s: string): (r: string)
    ensures |r| == 0 || (!IsJsSpace(r[0]) && !IsJsSpace(r[|r| - 1]))
    ensures LeadingSpaces(s) + |r| <= |s|
    ensures r == s[LeadingSpaces(s)..LeadingSpaces(s) + |r|]
    ensures forall k :: 0 <= k < |s| && !IsJsSpace(s[k]) ==> LeadingSpaces(s) <= k < LeadingSpaces(s) + |r|
  {
    var t := s[LeadingSpaces(s)..];
    t[..|t| - TrailingSpaces(t)]
  }

  /** Trimming twice is trimming once. */
  lemma TrimIdempotent(s: string)
    ensures Trim(Trim(s)) == Trim(s)
  {
    var r := Trim(s);
    assert LeadingSpaces(r) == 0;
    assert TrailingSpaces(r[LeadingSpaces(r)..]) == 0 by {
      assert r[LeadingSpaces(r)..] == r;
    }
  }

  /** True when `s` holds nothing but whitespace (or nothing at all). */
  predicate IsBlank(s: string) {
    forall k :: 0 <= k < |s| ==> IsJsSpace(s[k])
  }

  /**
   * `s.trim() || fallback`: the trimmed text, or `fallback` exactly when the
   * input is blank. A trimmed fallback makes the result trimmed in every case.
   */
  function TrimOr(s: string, fallback: string): (r: string)
    ensures IsBlank(s) ==> r == fallback
    ensures !IsBlank(s) ==> r == Trim(s) && |r| > 0
    ensures IsTrimmed(fallback) ==> IsTrimmed(r)
  {
    var t := Trim(s);
    if |t| == 0 then fallback else t
  }

  /** Non-empty, with no whitespace at either end. */
  predicate IsTrimmed(s: string) {
    |s| > 0 && !IsJsSpace(s[0]) && !IsJsSpace(s[|s| - 1])
  }

  /** With a trimmed fallback, `TrimOr` always yields trimmed text, and applying it again changes nothing. */
  lemma TrimOrIdempotent(s: string, fallback: string)
    requires IsTrimmed(fallback)
    ensures IsTrimmed(TrimOr(s, fallback))
    ensures TrimOr(TrimOr(s, fallback), fallback) == TrimOr(s, fallback)
  {
    var t := Trim(s);
    if |t| > 0 {
      TrimmedUnchanged(t);
    } else {
      TrimmedUnchanged(fallback);
    }
  }

  /** Trimming a string without outer whitespace changes nothing. */
  lemma TrimmedUnchanged(t: string)
    requires IsTrimmed(t)
    ensures Trim(t) == t
  {
    assert LeadingSpaces(t) == 0;
    assert t[0..] == t;
    assert TrailingSpaces(t) == 0;
  }
}
