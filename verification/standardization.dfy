/** The text normaliser of `DataStandardization`: `clean_text`,
    `remove_stopwords`, `lemmatize_text` and `standardize_text`. The NLTK
    stopword list and the WordNet lemmatizer are parameters.
 */
module Standardization {
  import opened Words

  /** A pandas cell of a text column: missing (`NaN`/`None`) or a string. */
  datatype Cell = NA | Str(s: string)

  predicate IsLower(c: char) {
    'a' <= c <= 'z'
  }

  predicate IsUpper(c: char) {
    'A' <= c <= 'Z'
  }

  /** The character class `[a-zA-Z\s]` the cleaner keeps. */
  predicate IsKept(c: char) {
    IsLower(c) || IsUpper(c) || IsSpace(c)
  }

  /** `str.lower()` on one character, as far as the following filter can
      observe it: ASCII capitals, and the two non-ASCII capitals whose lower
      case contains an ASCII letter (KELVIN SIGN and LATIN CAPITAL LETTER I
      WITH DOT ABOVE). Every other character is either unchanged by `lower`
      or mapped to a character the filter removes anyway. */
  function LowerChar(c: char): (r: string)
    ensures forall k :: 0 <= k < |r| ==> !IsUpper(r[k])
  {
    if IsUpper(c) then [(c as int + 32) as char]
    else if c == '\U{212A}' then "k"
    else if c == '\U{0130}' then "i\U{0307}"
    else [c]
  }

  /** `str.lower()`: each character is replaced by its lower case. */
  function Lower(s: string): (r: string)
    ensures forall k :: 0 <= k < |r| ==> !IsUpper(r[k])
    ensures |s| == 1 ==> r == LowerChar(s[0])
  {
    if s == [] then []
    else
      var head := LowerChar(s[0]);
      var tail := Lower(s[1..]);
      assert forall k :: 0 <= k < |head + tail| ==>
        (head + tail)[k] == if k < |head| then head[k] else tail[k - |head|];
      head + tail
  }

  /** `re.sub(r'[^a-zA-Z\s]', '', s)`. */
  function KeepLettersAndSpaces(s: string): (r: string)
    ensures forall k :: 0 <= k < |r| ==> IsKept(r[k]) && r[k] in s
    ensures |s| == 1 ==> r == if IsKept(s[0]) then s else []
  {
    if s == [] then []
    else
      var tail := KeepLettersAndSpaces(s[1..]);
      assert forall k :: 0 <= k < |tail| ==> tail[k] in s by {
        forall k | 0 <= k < |tail| ensures tail[k] in s {
          var j :| 0 <= j < |s[1..]| && s[1..][j] == tail[k];
          assert s[j + 1] == tail[k];
        }
      }
      if IsKept(s[0]) then [s[0]] + tail else tail
  }

  /** Lower-casing works character by character: with the one-character
      case of `Lower` this fixes it as the map of `LowerChar` over the
      string, in order. */
  lemma {:induction false} LowerAppend(a: string, b: string)
    ensures Lower(a + b) == Lower(a) + Lower(b)
    decreases |a|
  {
    if a == [] {
      assert a + b == b;
    } else {
      assert (a + b)[0] == a[0];
      assert (a + b)[1..] == a[1..] + b;
      LowerAppend(a[1..], b);
      assert Lower(a + b) == LowerChar(a[0]) + (Lower(a[1..]) + Lower(b));
    }
  }

  /** The filter works character by character: with its one-character
      case this fixes it as keeping exactly the `[a-zA-Z\s]` characters, in
      order. */
  lemma {:induction false} KeepAppend(a: string, b: string)
    ensures KeepLettersAndSpaces(a + b) == KeepLettersAndSpaces(a) + KeepLettersAndSpaces(b)
    decreases |a|
  {
    if a == [] {
      assert a + b == b;
    } else {
      assert (a + b)[0] == a[0];
      assert (a + b)[1..] == a[1..] + b;
      KeepAppend(a[1..], b);
      if IsKept(a[0]) {
        assert KeepLettersAndSpaces(a + b)
          == [a[0]] + (KeepLettersAndSpaces(a[1..]) + KeepLettersAndSpaces(b));
      }
    }
  }

  /** `clean_text`: a missing value becomes the empty string; otherwise
      lower-case, drop everything but ASCII letters and whitespace, and
      collapse whitespace runs with `' '.join(text.split())`. */
  function CleanText(cell: Cell): (r: string)
    ensures cell.NA? ==> r == ""
  {
    match cell
    case NA => ""
    case Str(s) => Join(Split(KeepLettersAndSpaces(Lower(s))))
  }

  /** The shape every cleaned string has: only lower-case ASCII letters and
      single ASCII spaces, no space at either end, no two spaces in a row. */
  predicate IsClean(s: string) {
    && IsSpaced(s)
    && forall k :: 0 <= k < |s| ==> IsLower(s[k]) || s[k] == ' '
  }

  /** A token made only of lower-case ASCII letters. */
  predicate IsLowerWord(w: string) {
    |w| > 0 && forall k :: 0 <= k < |w| ==> IsLower(w[k])
  }

  /** The tokens the cleaner splits out are lower-case ASCII words. */
  lemma CleanTokensAreLower(s: string)
    ensures var ws := Split(KeepLettersAndSpaces(Lower(s)));
      forall i :: 0 <= i < |ws| ==> IsLowerWord(ws[i])
  {
    var low := Lower(s);
    var kept := KeepLettersAndSpaces(low);
    assert forall k :: 0 <= k < |kept| ==> IsLower(kept[k]) || IsSpace(kept[k]) by {
      forall k | 0 <= k < |kept| ensures IsLower(kept[k]) || IsSpace(kept[k]) {
        var j :| 0 <= j < |low| && low[j] == kept[k];
      }
    }
  }

  /** Every character of a cleaned text is a lower-case ASCII letter or a
      single space, with no space at either end and no run of spaces. */
  lemma CleanTextIsClean(cell: Cell)
    ensures IsClean(CleanText(cell))
  {
    if cell.Str? {
      var ws := Split(KeepLettersAndSpaces(Lower(cell.s)));
      CleanTokensAreLower(cell.s);
      JoinSpaced(ws);
      JoinChars(ws, c => IsLower(c) || c == ' ');
    }
  }

  /** Lower-casing leaves a string of lower-case letters and spaces alone. */
  lemma {:induction false} LowerFixesClean(s: string)
    requires forall k :: 0 <= k < |s| ==> IsLower(s[k]) || s[k] == ' '
    ensures Lower(s) == s
  {
    if s != [] {
      LowerFixesClean(s[1..]);
      assert s == [s[0]] + s[1..];
    }
  }

  /** The character filter leaves a string of letters and spaces alone. */
  lemma {:induction false} KeepFixesClean(s: string)
    requires forall k :: 0 <= k < |s| ==> IsLower(s[k]) || s[k] == ' '
    ensures KeepLettersAndSpaces(s) == s
  {
    if s != [] {
      KeepFixesClean(s[1..]);
      assert s == [s[0]] + s[1..];
    }
  }

  /** The strings `clean_text` returns unchanged are exactly the clean ones;
      in particular cleaning is idempotent. */
  lemma CleanFixedPoints(s: string)
    ensures CleanText(Str(s)) == s <==> IsClean(s)
  {
    if IsClean(s) {
      LowerFixesClean(s);
      KeepFixesClean(s);
      JoinSplit(s);
    } else {
      CleanTextIsClean(Str(s));
    }
  }

  /** `clean_text(clean_text(t)) == clean_text(t)`. */
  lemma CleanTextIdempotent(cell: Cell)
    ensures CleanText(Str(CleanText(cell))) == CleanText(cell)
  {
    CleanTextIsClean(cell);
    CleanFixedPoints(CleanText(cell));
  }

  /** Collapsing whitespace keeps every token of the filtered text, in order. */
  lemma CleanKeepsTokens(s: string)
    ensures Split(CleanText(Str(s))) == Split(KeepLettersAndSpaces(Lower(s)))
  {
    SplitJoin(Split(KeepLettersAndSpaces(Lower(s))));
  }

  /** Where the stopword set came from. `Installed` is the normal path, on
      which the caller's custom stopwords are added. When the corpus lookup
      raised `LookupError`, it is downloaded and re-read, and the custom
      stopwords are NOT added. */
  datatype StopwordCorpus = Installed(words: set<string>) | DownloadedAfterLookupError(words: set<string>)

  /** The set `remove_stopwords` filters against. A custom set of `None` is
      the empty set here; an empty custom set adds nothing either way. */
  function Stopwords(corpus: StopwordCorpus, custom: set<string>): (stop: set<string>)
    ensures corpus.Installed? ==> custom <= stop
    ensures corpus.DownloadedAfterLookupError? ==> stop == corpus.words
    ensures corpus.words <= stop
  {
    match corpus
    case Installed(words) => words + custom
    case DownloadedAfterLookupError(words) => words
  }

  /** The tokens of `ws` not in `stop`, in their original order. */
  function FilterOut(ws: seq<string>, stop: set<string>): (r: seq<string>)
    ensures forall w :: w in r <==> w in ws && w !in stop
    ensures |r| <= |ws|
  {
    if ws == [] then []
    else if ws[0] in stop then FilterOut(ws[1..], stop)
    else [ws[0]] + FilterOut(ws[1..], stop)
  }

  /** Filtering distributes over concatenation: together with its effect on
      one token this pins the filter down as the order-keeping one. */
  lemma {:induction false} FilterOutAppend(a: seq<string>, b: seq<string>, stop: set<string>)
    ensures FilterOut(a + b, stop) == FilterOut(a, stop) + FilterOut(b, stop)
    decreases |a|
  {
    if a != [] {
      assert (a + b)[0] == a[0];
      assert (a + b)[1..] == a[1..] + b;
      FilterOutAppend(a[1..], b, stop);
      if a[0] !in stop {
        assert [a[0]] + FilterOut(a[1..], stop) + FilterOut(b, stop)
          == [a[0]] + (FilterOut(a[1..], stop) + FilterOut(b, stop));
      }
    } else {
      assert a + b == b;
    }
  }

  lemma FilterOutKeepsWords(ws: seq<string>, stop: set<string>)
    requires AllWords(ws)
    ensures AllWords(FilterOut(ws, stop))
  {
    var r := FilterOut(ws, stop);
    forall i | 0 <= i < |r| ensures IsWord(r[i]) {
      assert r[i] in ws;
    }
  }

  /** `remove_stopwords(text, custom)`. */
  function RemoveStopwords(text: string, corpus: StopwordCorpus, custom: set<string>): (r: string)
    ensures text == "" ==> r == ""
  {
    if text == "" then ""
    else Join(FilterOut(Split(text), Stopwords(corpus, custom)))
  }

  /** The result's tokens are exactly the input's tokens outside the
      stopword set, in their original order. */
  lemma RemoveStopwordsTokens(text: string, corpus: StopwordCorpus, custom: set<string>)
    ensures Split(RemoveStopwords(text, corpus, custom)) == FilterOut(Split(text), Stopwords(corpus, custom))
    ensures IsSpaced(RemoveStopwords(text, corpus, custom))
  {
    var kept := FilterOut(Split(text), Stopwords(corpus, custom));
    FilterOutKeepsWords(Split(text), Stopwords(corpus, custom));
    SplitJoin(kept);
    JoinSpaced(kept);
  }

  /** On the normal path a custom stopword never survives; after the
      `LookupError` fallback a custom stopword that is not in the corpus
      survives wherever it occurs as a token. */
  lemma CustomStopwordsOnlyWhenInstalled(text: string, corpus: StopwordCorpus, custom: set<string>, w: string)
    requires w in custom
    ensures corpus.Installed? ==> w !in Split(RemoveStopwords(text, corpus, custom))
    ensures corpus.DownloadedAfterLookupError? && w !in corpus.words && w in Split(text) ==>
      w in Split(RemoveStopwords(text, corpus, custom))
  {
    RemoveStopwordsTokens(text, corpus, custom);
  }

  /** The corpus as the next `remove_stopwords` call finds it. Empty text
      returns before the lookup; any other call has the corpus installed
      afterwards, by the download in the `LookupError` branch if not before. */
  function CorpusAfter(text: string, corpus: StopwordCorpus): (next: StopwordCorpus)
    ensures next.words == corpus.words
    ensures text == "" ==> next == corpus
    ensures text != "" ==> next.Installed?
  {
    if text == "" then corpus else Installed(corpus.words)
  }

  /** The fallback that ignores the custom stopwords is taken at most once:
      after any call on non-empty text, every later call removes the custom
      stopwords along with the corpus. */
  lemma FallbackOnlyOnce(first: string, text: string, corpus: StopwordCorpus, custom: set<string>)
    requires first != ""
    ensures RemoveStopwords(text, CorpusAfter(first, corpus), custom) == RemoveStopwords(text, Installed(corpus.words), custom)
    ensures forall w :: w in custom ==> w !in Split(RemoveStopwords(text, CorpusAfter(first, corpus), custom))
  {
    forall w | w in custom
      ensures w !in Split(RemoveStopwords(text, CorpusAfter(first, corpus), custom))
    {
      CustomStopwordsOnlyWhenInstalled(text, CorpusAfter(first, corpus), custom, w);
    }
  }

  /** Apply `f` to every token. */
  function MapWords(ws: seq<string>, f: string -> string): (r: seq<string>)
    ensures |r| == |ws|
  {
    seq(|ws|, i requires 0 <= i < |ws| => f(ws[i]))
  }

  /** The lemmatizer turns a token into a token: WordNet lemmas join their
      parts with underscores, never with whitespace. */
  ghost predicate KeepsWords(f: string -> string) {
    forall w {:trigger f(w)} :: IsWord(w) ==> IsWord(f(w))
  }

  /** `lemmatize_text(text)`. */
  function LemmatizeText(text: string, lemmatizer: string -> string): (r: string)
    ensures text == "" ==> r == ""
  {
    if text == "" then ""
    else Join(MapWords(Split(text), lemmatizer))
  }

  /** Lemmatizing keeps the token count and order and maps each token on its
      own. */
  lemma LemmatizeTokens(text: string, lemmatizer: string -> string)
    requires KeepsWords(lemmatizer)
    ensures var ws := Split(text);
      var r := Split(LemmatizeText(text, lemmatizer));
      |r| == |ws| && forall i :: 0 <= i < |ws| ==> r[i] == lemmatizer(ws[i])
  {
    var ws := Split(text);
    var mapped := MapWords(ws, lemmatizer);
    assert AllWords(mapped) by {
      forall i | 0 <= i < |mapped| ensures IsWord(mapped[i]) {
        assert IsWord(ws[i]);
        assert mapped[i] == lemmatizer(ws[i]);
      }
    }
    SplitJoin(mapped);
  }

  /** The configuration of one `DataStandardization` instance. */
  datatype Standardizer = Standardizer(
    removeStops: bool,
    lemmatize: bool,
    customStopwords: set<string>,
    corpus: StopwordCorpus,
    lemmatizer: string -> string)
  {
    function StopSet(): set<string> {
      Stopwords(corpus, customStopwords)
    }
  }

  /** `standardize_text`: clean, then (if enabled) remove stopwords, then (if
      enabled) lemmatize. */
  function StandardizeText(std: Standardizer, cell: Cell): (r: string)
    ensures !std.removeStops && !std.lemmatize ==> r == CleanText(cell)
  {
    var cleaned := CleanText(cell);
    var filtered := if std.removeStops then RemoveStopwords(cleaned, std.corpus, std.customStopwords) else cleaned;
    if std.lemmatize then LemmatizeText(filtered, std.lemmatizer) else filtered
  }

  /** The token-level meaning of standardisation, written independently of
      the string plumbing: the cleaned tokens, less the stopwords, each
      lemmatized. */
  function StandardTokens(std: Standardizer, cell: Cell): seq<string> {
    var tokens := Split(CleanText(cell));
    var kept := if std.removeStops then FilterOut(tokens, std.StopSet()) else tokens;
    if std.lemmatize then MapWords(kept, std.lemmatizer) else kept
  }

  /** Standardisation is the join of its reference tokens and splits back
      into them: stopwords are removed from cleaned text before any token is
      lemmatized. */
  lemma StandardizeMatchesTokens(std: Standardizer, cell: Cell)
    requires KeepsWords(std.lemmatizer)
    ensures Split(StandardizeText(std, cell)) == StandardTokens(std, cell)
    ensures StandardizeText(std, cell) == Join(StandardTokens(std, cell))
  {
    var cleaned := CleanText(cell);
    CleanTextIsClean(cell);
    JoinSplit(cleaned);
    var filtered := if std.removeStops then RemoveStopwords(cleaned, std.corpus, std.customStopwords) else cleaned;
    var kept := if std.removeStops then FilterOut(Split(cleaned), std.StopSet()) else Split(cleaned);
    if std.removeStops {
      RemoveStopwordsTokens(cleaned, std.corpus, std.customStopwords);
      FilterOutKeepsWords(Split(cleaned), std.StopSet());
      SplitJoin(kept);
      if cleaned == "" {
        assert kept == [];
      } else {
        assert filtered == Join(kept);
      }
    }
    assert Split(filtered) == kept;
    assert filtered == Join(kept);
    if std.lemmatize {
      LemmatizeTokens(filtered, std.lemmatizer);
      var mapped := MapWords(kept, std.lemmatizer);
      if filtered == "" {
        assert kept == [];
        assert mapped == [];
      }
      assert LemmatizeText(filtered, std.lemmatizer) == Join(mapped);
    }
  }

  /** Without lemmatization the standardized text is still clean, and its
      tokens are the cleaned tokens outside the stopword set when stopword
      removal is on. */
  lemma StandardizeWithoutLemmatizerIsClean(std: Standardizer, cell: Cell)
    requires !std.lemmatize
    ensures IsClean(StandardizeText(std, cell))
    ensures std.removeStops ==>
      Split(StandardizeText(std, cell)) == FilterOut(Split(CleanText(cell)), std.StopSet())
  {
    var cleaned := CleanText(cell);
    CleanTextIsClean(cell);
    if std.removeStops {
      RemoveStopwordsTokens(cleaned, std.corpus, std.customStopwords);
      var r := StandardizeText(std, cell);
      if cleaned != "" {
        var kept := FilterOut(Split(cleaned), std.StopSet());
        forall i | 0 <= i < |kept| ensures IsLowerWord(kept[i]) {
          assert kept[i] in Split(cleaned);
          var j :| 0 <= j < |Split(cleaned)| && Split(cleaned)[j] == kept[i];
          assert forall k :: 0 <= k < |kept[i]| ==> kept[i][k] in cleaned;
        }
        JoinChars(kept, c => IsLower(c) || c == ' ');
      }
    }
  }
}
