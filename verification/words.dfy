/** Whitespace tokenisation as Python's `str.split()` (no argument) and
    `' '.join(...)` perform it, with the round-trip facts the normaliser
    relies on.
 */
module Words {

  /** The characters Python's `str.isspace()` accepts; `str.split()` and the
      regular-expression class `\s` both use this set. */
  predicate IsSpace(c: char) {
    var n := c as int;
    || (0x09 <= n <= 0x0D) || (0x1C <= n <= 0x20)
    || n == 0x85 || n == 0xA0 || n == 0x1680
    || (0x2000 <= n <= 0x200A) || n == 0x2028 || n == 0x2029
    || n == 0x202F || n == 0x205F || n == 0x3000
  }

  /** A token `str.split()` can produce: non-empty, no whitespace in it. */
  predicate IsWord(w: string) {
    |w| > 0 && forall k :: 0 <= k < |w| ==> !IsSpace(w[k])
  }

  predicate AllWords(ws: seq<string>) {
    forall i :: 0 <= i < |ws| ==> IsWord(ws[i])
  }

  /** Length of the longest whitespace-free prefix of `s`. */
  function WordLength(s: string): (n: nat)
    ensures n <= |s|
    ensures forall k :: 0 <= k < n ==> !IsSpace(s[k])
    ensures n < |s| ==> IsSpace(s[n])
  {
    if s == [] || IsSpace(s[0]) then 0 else 1 + WordLength(s[1..])
  }

  /** `s.split()`: the maximal whitespace-free runs of `s`, in order. */
  function Split(s: string): (ws: seq<string>)
    ensures AllWords(ws)
    ensures forall i, k :: 0 <= i < |ws| && 0 <= k < |ws[i]| ==> ws[i][k] in s
    decreases |s|
  {
    if s == [] then []
    else if IsSpace(s[0]) then Split(s[1..])
    else
      var n := WordLength(s);
      var rest := Split(s[n..]);
      assert forall i, k :: 0 <= i < |rest| && 0 <= k < |rest[i]| ==> rest[i][k] in s by {
        forall i, k | 0 <= i < |rest| && 0 <= k < |rest[i]|
          ensures rest[i][k] in s
        {
          var x := rest[i][k];
          var j :| 0 <= j < |s[n..]| && s[n..][j] == x;
          assert s[n + j] == x;
        }
      }
      [s[..n]] + rest
  }

  /** `' '.join(ws)`. */
  function Join(ws: seq<string>): string {
    if ws == [] then ""
    else if |ws| == 1 then ws[0]
    else ws[0] + " " + Join(ws[1..])
  }

  /** Every character of a join is a character of one of the words or the
      separating space. */
  lemma {:induction false} JoinChars(ws: seq<string>, P: char -> bool)
    requires P(' ')
    requires forall i, k :: 0 <= i < |ws| && 0 <= k < |ws[i]| ==> P(ws[i][k])
    ensures forall k :: 0 <= k < |Join(ws)| ==> P(Join(ws)[k])
    decreases |ws|
  {
    if |ws| > 1 {
      JoinChars(ws[1..], P);
      var j := Join(ws);
      forall k | 0 <= k < |j|
        ensures P(j[k])
      {
        if k < |ws[0]| {
          assert j[k] == ws[0][k];
        } else if k > |ws[0]| {
          assert j[k] == Join(ws[1..])[k - |ws[0]| - 1];
        }
      }
    }
  }

  /** A word followed by nothing or by whitespace splits off as one token. */
  lemma SplitWordThen(w: string, t: string)
    requires IsWord(w)
    requires t == [] || IsSpace(t[0])
    ensures Split(w + t) == [w] + Split(t)
  {
    var s := w + t;
    var n := WordLength(s);
    assert forall k :: 0 <= k < |w| ==> s[k] == w[k];
    assert |t| > 0 ==> s[|w|] == t[0];
    assert n == |w|;
    assert s[..n] == w;
    assert s[n..] == t;
  }

  /** Splitting a join gives back the words: `' '.join` loses nothing when
      no word is empty or holds whitespace. */
  lemma {:induction false} SplitJoin(ws: seq<string>)
    requires AllWords(ws)
    ensures Split(Join(ws)) == ws
    decreases |ws|
  {
    if |ws| == 1 {
      SplitWordThen(ws[0], "");
      assert ws[0] + "" == ws[0];
    } else if |ws| > 1 {
      var rest := Join(ws[1..]);
      var t := " " + rest;
      assert ws == [ws[0]] + ws[1..];
      JoinCons(ws[0], ws[1..]);
      assert ws[0] + " " + rest == ws[0] + t;
      SplitWordThen(ws[0], t);
      assert t[1..] == rest;
      SplitSkipsSpace(t);
      SplitJoin(ws[1..]);
    }
  }

  /** A string in single-space normal form: no whitespace at either end and
      every whitespace character a lone ASCII space. */
  predicate IsSpaced(s: string) {
    && (forall i :: 0 <= i < |s| && IsSpace(s[i]) ==> s[i] == ' ')
    && (|s| > 0 ==> !IsSpace(s[0]) && !IsSpace(s[|s| - 1]))
    && (forall i :: 0 <= i < |s| - 1 && IsSpace(s[i]) ==> !IsSpace(s[i + 1]))
  }

  /** Joining words gives single-space normal form. */
  lemma {:induction false} JoinSpaced(ws: seq<string>)
    requires AllWords(ws)
    ensures IsSpaced(Join(ws))
    ensures |ws| > 0 ==> |Join(ws)| > 0 && Join(ws)[0] == ws[0][0]
    ensures |ws| > 0 ==> Join(ws)[|Join(ws)| - 1] == ws[|ws| - 1][|ws[|ws| - 1]| - 1]
    decreases |ws|
  {
    if |ws| > 1 {
      var w := ws[0];
      var rest := Join(ws[1..]);
      JoinSpaced(ws[1..]);
      var s := Join(ws);
      assert s == w + " " + rest;
      assert forall k :: 0 <= k < |w| ==> s[k] == w[k];
      assert s[|w|] == ' ';
      assert forall k :: |w| < k < |s| ==> s[k] == rest[k - |w| - 1];
      assert s[0] == w[0];
      assert s[|s| - 1] == rest[|rest| - 1];
    }
  }

  /** Splitting skips one leading whitespace character. */
  lemma SplitSkipsSpace(s: string)
    requires s != [] && IsSpace(s[0])
    ensures Split(s) == Split(s[1..])
  {
  }

  /** A string starting with a non-space character has at least one token. */
  lemma SplitNonEmpty(s: string)
    requires s != [] && !IsSpace(s[0])
    ensures |Split(s)| > 0
  {
  }

  /** In normal form, the first word is followed by one space and then at
      least one more character. */
  lemma SpacedFirstGap(s: string)
    requires IsSpaced(s) && s != [] && WordLength(s) < |s|
    ensures WordLength(s) + 1 < |s| && s[WordLength(s)] == ' '
    ensures !IsSpace(s[WordLength(s) + 1])
  {
    assert !IsSpace(s[|s| - 1]);
  }

  /** What follows the first word and its separating space is again in
      single-space normal form. */
  lemma SpacedTail(s: string, n: nat)
    requires IsSpaced(s)
    requires n + 1 < |s| && IsSpace(s[n])
    ensures IsSpaced(s[n + 1..])
  {
    var t := s[n + 1..];
    assert forall i :: 0 <= i < |t| ==> t[i] == s[n + 1 + i];
  }

  /** Joining a word in front of a non-empty list puts one space between. */
  lemma JoinCons(w: string, rest: seq<string>)
    requires |rest| > 0
    ensures Join([w] + rest) == w + " " + Join(rest)
  {
    assert ([w] + rest)[1..] == rest;
  }

  /** In normal form, when the first word does not end the string, the
      tokens are that word followed by the tokens after its space, of which
      there is at least one. */
  lemma SplitAfterGap(s: string)
    requires IsSpaced(s) && s != [] && WordLength(s) < |s|
    ensures WordLength(s) + 1 < |s|
    ensures Split(s) == [s[..WordLength(s)]] + Split(s[WordLength(s) + 1..])
    ensures |Split(s[WordLength(s) + 1..])| > 0
  {
    var n := WordLength(s);
    SpacedFirstGap(s);
    var t := s[n + 1..];
    assert s[n..][1..] == t;
    SplitSkipsSpace(s[n..]);
    SplitNonEmpty(t);
  }

  /** A string is the part before position `n`, the space at `n`, and the rest. */
  lemma SpaceBetween(s: string, n: nat)
    requires n < |s| && s[n] == ' '
    ensures s == s[..n] + " " + s[n + 1..]
  {
    assert s == s[..n] + s[n..];
    assert s[n..] == [s[n]] + s[n + 1..];
  }

  /** Splitting and re-joining a string in single-space normal form gives it
      back: such strings are exactly the joins of words. */
  lemma {:induction false} JoinSplit(s: string)
    requires IsSpaced(s)
    ensures Join(Split(s)) == s
    decreases |s|
  {
    if s != [] {
      var n := WordLength(s);
      var w := s[..n];
      if n == |s| {
        assert s[n..] == [];
        assert Split(s) == [w];
      } else {
        SplitAfterGap(s);
        var t := s[n + 1..];
        SpacedTail(s, n);
        JoinSplit(t);
        JoinCons(w, Split(t));
        SpaceBetween(s, n);
      }
    }
  }
}
