/**
 * The note-taking server: a note's title is turned into a file name, and the notes live
 * as one text file each in the `notes_data` directory. The directory is modelled as a map
 * from file name to the text written to that file.
 */
module Notes {
  import opened Strings

  // ---------------------------------------------------------------------------
  // Turning a title into a file name
  // ---------------------------------------------------------------------------

  predicate IsAscii(c: char) { c as int < 128 }

  /** What `\w` matches once the title holds only ASCII: letters, digits and '_'. */
  predicate IsWordChar(c: char) { IsAsciiLetter(c) || '0' <= c <= '9' || c == '_' }

  /** What `[-\s]` matches. */
  predicate IsSeparator(c: char) { c == '-' || IsSpace(c) }

  /** What `[^\w\s-]` does not match, so survives its removal. */
  predicate KeptBySymbolFilter(c: char) { IsWordChar(c) || IsSeparator(c) }

  /** The ASCII step of the sanitiser: characters outside ASCII are dropped. */
  function AsciiOnly(title: string): string {
    Filter(title, IsAscii)
  }

  /** `re.sub(r"[^\w\s-]", "", s)`. */
  function DropSymbols(s: string): string {
    Filter(s, KeptBySymbolFilter)
  }

  /** `re.sub(r"[-\s]+", "-", s)`: each maximal run of separators becomes a single '-'.
      The result holds no whitespace and never two '-' in a row, and starts with '-'
      exactly when `s` starts with a separator. */
  function CollapseSeparators(s: string): (r: string)
    ensures forall c :: c in r ==> c == '-' || (!IsSeparator(c) && c in s)
    ensures forall i :: 0 <= i < |r| - 1 ==> !(r[i] == '-' && r[i + 1] == '-')
    ensures r == [] <==> s == []
    ensures r != [] ==> (r[0] == '-' <==> IsSeparator(s[0]))
  {
    CollapseRunsFacts(s, IsSeparator, '-');
    CollapseRuns(s, IsSeparator, '-')
  }

  predicate IsStemChar(c: char) { IsAsciiLower(c) || '0' <= c <= '9' || c == '_' || c == '-' }

  /** What the sanitiser can produce before ".txt": lower-case letters, digits, '_' and '-',
      never two '-' next to each other. */
  predicate IsStem(s: string) {
    && (forall i :: 0 <= i < |s| ==> IsStemChar(s[i]))
    && (forall i :: 0 <= i < |s| - 1 ==> !(s[i] == '-' && s[i + 1] == '-'))
  }

  /** The characters left after removing symbols and stripping, before lower-casing. */
  function Cleaned(title: string): string {
    Strip(DropSymbols(AsciiOnly(title)))
  }

  /** The sanitised title without its ".txt" suffix. */
  function SanitizedStem(title: string): (stem: string)
    ensures IsStem(stem)
  {
    var cleaned := Cleaned(title);
    var lowered := Lower(cleaned);
    assert forall c :: c in lowered ==> IsSeparator(c) || (IsStemChar(c) && c != '-') by {
      forall c | c in lowered ensures IsSeparator(c) || (IsStemChar(c) && c != '-') {
        var i :| 0 <= i < |lowered| && lowered[i] == c;
        assert KeptBySymbolFilter(cleaned[i]) by {
          assert cleaned[i] in cleaned;
        }
        LowerKeptChar(cleaned[i]);
      }
    }
    var stem := CollapseSeparators(lowered);
    assert forall i :: 0 <= i < |stem| ==> IsStemChar(stem[i]) by {
      forall i | 0 <= i < |stem| ensures IsStemChar(stem[i]) {
        assert stem[i] in stem;
      }
    }
    stem
  }

  /** A character the symbol filter keeps is, once lower-cased, a separator or a stem
      character other than '-'. */
  lemma LowerKeptChar(d: char)
    requires KeptBySymbolFilter(d)
    ensures IsSeparator(LowerChar(d)) || (IsStemChar(LowerChar(d)) && LowerChar(d) != '-')
  {
    if IsAsciiUpper(d) {
      assert IsAsciiLower(LowerChar(d));
    } else {
      assert LowerChar(d) == d;
    }
  }

  /** `_sanitize_title_to_filename`: the name always ends in ".txt" and what comes before
      it is a well-formed stem. */
  function FileName(title: string): (name: string)
    ensures EndsWith(name, ".txt")
    ensures IsStem(name[..|name| - 4])
  {
    var stem := SanitizedStem(title);
    assert (stem + ".txt")[..|stem|] == stem;
    stem + ".txt"
  }

  /** Titles that differ only in the case of their letters name the same file. */
  lemma FileNameIgnoresCase(a: string, b: string)
    requires Lower(a) == Lower(b)
    ensures FileName(a) == FileName(b)
  {
    LowerCommutesWithCleaning(a);
    LowerCommutesWithCleaning(b);
  }

  lemma LowerCommutesWithCleaning(t: string)
    ensures Lower(Cleaned(t)) == Cleaned(Lower(t))
  {
    assert forall c :: IsAscii(LowerChar(c)) == IsAscii(c);
    assert forall c :: KeptBySymbolFilter(LowerChar(c)) == KeptBySymbolFilter(c);
    FilterLower(t, IsAscii);
    FilterLower(AsciiOnly(t), KeptBySymbolFilter);
    StripLower(DropSymbols(AsciiOnly(t)));
  }

  /** An ASCII character that the symbol filter removes (anything but letters, digits, '_',
      '-' and whitespace) can be inserted anywhere in a title without changing its file name. */
  lemma FileNameIgnoresSymbol(p: string, q: string, c: char)
    requires IsAscii(c) && !KeptBySymbolFilter(c)
    ensures FileName(p + [c] + q) == FileName(p + q)
  {
    FiltersDropSymbol(p, q, c);
  }

  /** The model's ASCII step drops every character outside ASCII, wherever it stands. */
  lemma FileNameDropsNonAscii(p: string, q: string, c: char)
    requires !IsAscii(c)
    ensures FileName(p + [c] + q) == FileName(p + q)
  {
    FiltersDropSymbol(p, q, c);
  }

  lemma FiltersDropSymbol(p: string, q: string, c: char)
    requires !IsAscii(c) || !KeptBySymbolFilter(c)
    ensures DropSymbols(AsciiOnly(p + [c] + q)) == DropSymbols(AsciiOnly(p + q))
  {
    FilterAppend(p, q, IsAscii);
    if IsAscii(c) {
      var ap, aq := AsciiOnly(p), AsciiOnly(q);
      FilterKeepsOne(p, q, c, IsAscii);
      FilterDropsOne(ap, aq, c, KeptBySymbolFilter);
    } else {
      FilterDropsOne(p, q, c, IsAscii);
    }
  }

  predicate HasWordChar(s: string) {
    exists i :: 0 <= i < |s| && IsWordChar(s[i])
  }

  /** Between two parts that each hold a letter, digit or '_', any run of ASCII spaces and
      hyphens gives the same file name as a single '-'. */
  lemma FileNameCollapsesSpacing(p: string, run: string, q: string)
    requires HasWordChar(p) && HasWordChar(q)
    requires run != [] && forall i :: 0 <= i < |run| ==> IsAscii(run[i]) && IsSeparator(run[i])
    ensures FileName(p + run + q) == FileName(p + "-" + q)
  {
    StemCollapsesSpacing(p, run, q);
  }

  lemma StemCollapsesSpacing(p: string, run: string, q: string)
    requires HasWordChar(p) && HasWordChar(q)
    requires run != [] && forall i :: 0 <= i < |run| ==> IsAscii(run[i]) && IsSeparator(run[i])
    ensures SanitizedStem(p + run + q) == SanitizedStem(p + "-" + q)
  {
    CollapsedAround(p, run, q);
  }

  /** The separator runs of the lower-cased cleaned forms collapse to the same text. */
  lemma CollapsedAround(p: string, run: string, q: string)
    requires HasWordChar(p) && HasWordChar(q)
    requires run != [] && forall i :: 0 <= i < |run| ==> IsAscii(run[i]) && IsSeparator(run[i])
    ensures CollapseRuns(Lower(Cleaned(p + run + q)), IsSeparator, '-')
      == CollapseRuns(Lower(Cleaned(p + "-" + q)), IsSeparator, '-')
  {
    var L, R := Lower(StripLeft(DropSymbols(AsciiOnly(p)))), Lower(StripRight(DropSymbols(AsciiOnly(q))));
    var x, y := Lower(Cleaned(p + run + q)), Lower(Cleaned(p + "-" + q));
    assert x == L + run + R by { LoweredAround(p, run, q); }
    assert y == L + "-" + R by { HyphenIsAsciiSeparator(); LoweredAround(p, "-", q); }
    CollapseSameAround(x, y, L, run, R);
  }

  lemma HyphenIsAsciiSeparator()
    ensures forall i :: 0 <= i < |"-"| ==> IsAscii("-"[i]) && IsSeparator("-"[i])
  {
  }

  lemma CollapseSameAround(x: string, y: string, l: string, run: string, r: string)
    requires run != [] && forall i :: 0 <= i < |run| ==> IsSeparator(run[i])
    requires x == l + run + r && y == l + "-" + r
    ensures CollapseRuns(x, IsSeparator, '-') == CollapseRuns(y, IsSeparator, '-')
  {
    assert "-" == ['-'];
    CollapseRun(l, run, r, IsSeparator, '-');
  }

  /** The lower-cased cleaned form of `p + mid + q`, for a `mid` of ASCII separators. */
  lemma LoweredAround(p: string, mid: string, q: string)
    requires HasWordChar(p) && HasWordChar(q)
    requires forall i :: 0 <= i < |mid| ==> IsAscii(mid[i]) && IsSeparator(mid[i])
    ensures Lower(Cleaned(p + mid + q))
      == Lower(StripLeft(DropSymbols(AsciiOnly(p)))) + mid + Lower(StripRight(DropSymbols(AsciiOnly(q))))
  {
    CleanedAround(p, mid, q);
    NoLetterInSeparators(mid);
    LowerAround(StripLeft(DropSymbols(AsciiOnly(p))), mid, StripRight(DropSymbols(AsciiOnly(q))));
  }

  lemma NoLetterInSeparators(mid: string)
    requires forall i :: 0 <= i < |mid| ==> IsAscii(mid[i]) && IsSeparator(mid[i])
    ensures forall i :: 0 <= i < |mid| ==> !IsAsciiLetter(mid[i])
  {
  }

  lemma LowerAround(l: string, mid: string, r: string)
    requires forall i :: 0 <= i < |mid| ==> !IsAsciiLetter(mid[i])
    ensures Lower(l + mid + r) == Lower(l) + mid + Lower(r)
  {
    LowerNoLetters(mid);
    LowerAppend(l + mid, r);
    LowerAppend(l, mid);
  }

  /** The cleaned form of `p + mid + q`, for a `mid` made of ASCII separators. */
  lemma CleanedAround(p: string, mid: string, q: string)
    requires HasWordChar(p) && HasWordChar(q)
    requires forall i :: 0 <= i < |mid| ==> IsAscii(mid[i]) && IsSeparator(mid[i])
    ensures var P, Q := DropSymbols(AsciiOnly(p)), DropSymbols(AsciiOnly(q));
      Cleaned(p + mid + q) == StripLeft(P) + mid + StripRight(Q)
  {
    var P, Q := DropSymbols(AsciiOnly(p)), DropSymbols(AsciiOnly(q));
    FilterAppend(p + mid, q, IsAscii);
    FilterAppend(p, mid, IsAscii);
    FilterKeepsAll(mid, IsAscii);
    var ap, aq := AsciiOnly(p), AsciiOnly(q);
    FilterAppend(ap + mid, aq, KeptBySymbolFilter);
    FilterAppend(ap, mid, KeptBySymbolFilter);
    FilterKeepsAll(mid, KeptBySymbolFilter);
    assert DropSymbols(AsciiOnly(p + mid + q)) == P + mid + Q;
    WordCharSurvives(p);
    WordCharSurvives(q);
    StripKeepsInterior(P, mid, Q);
  }

  /** A letter, digit or '_' survives both filters, so the filtered text is not blank. */
  lemma WordCharSurvives(s: string)
    requires HasWordChar(s)
    ensures !IsBlank(DropSymbols(AsciiOnly(s)))
  {
    var i :| 0 <= i < |s| && IsWordChar(s[i]);
    var a := AsciiOnly(s);
    var d := DropSymbols(a);
    assert s[i] in a by { FilterKeepsMember(s, IsAscii, i); }
    var j :| 0 <= j < |a| && a[j] == s[i];
    assert s[i] in d by { FilterKeepsMember(a, KeptBySymbolFilter, j); }
    var k :| 0 <= k < |d| && d[k] == s[i];
    assert !IsSpace(d[k]) by { WordCharNotSpace(s[i]); }
  }

  /** Which file a title names: leaving out the '-' marks, the stem is exactly the title's
      letters, digits and '_', lower-cased and in their order. */
  lemma StemKeepsWords(title: string)
    ensures Filter(SanitizedStem(title), IsWordChar) == Lower(Filter(title, IsWordChar))
  {
    SanitizedStemUnfolds(title);
    CleanedKeepsWords(title);
    CollapsedKeepsWords(Cleaned(title));
  }

  lemma SanitizedStemUnfolds(title: string)
    ensures SanitizedStem(title) == CollapseRuns(Lower(Cleaned(title)), IsSeparator, '-')
  {
  }

  /** The filters and the strip keep every letter, digit and '_', in order. */
  lemma CleanedKeepsWords(title: string)
    ensures Filter(Cleaned(title), IsWordChar) == Filter(title, IsWordChar)
  {
    var a := AsciiOnly(title);
    var d := DropSymbols(a);
    FilterFilter(title, IsAscii, IsWordChar);
    FilterFilter(a, KeptBySymbolFilter, IsWordChar);
    WordCharsAreNotSpaces();
    FilterStrip(d, IsWordChar);
  }

  lemma WordCharsAreNotSpaces()
    ensures forall ch :: IsSpace(ch) ==> !IsWordChar(ch)
  {
    forall ch | IsSpace(ch) ensures !IsWordChar(ch) {
      if IsWordChar(ch) { WordCharNotSpace(ch); }
    }
  }

  /** Lower-casing and collapsing the separator runs keep the letters, digits and '_',
      lower-cased, in order. */
  lemma CollapsedKeepsWords(c: string)
    ensures Filter(CollapseRuns(Lower(c), IsSeparator, '-'), IsWordChar) == Lower(Filter(c, IsWordChar))
  {
    assert forall ch :: IsWordChar(LowerChar(ch)) == IsWordChar(ch);
    FilterLower(c, IsWordChar);
    WordCharsAreNotSpaces();
    FilterCollapseRuns(Lower(c), IsSeparator, '-', IsWordChar);
  }

  /** Titles whose letters, digits and '_' differ other than in case name different files,
      so the "already exists" check refuses only a title with the same words. */
  lemma DifferentWordsDifferentFiles(a: string, b: string)
    requires Lower(Filter(a, IsWordChar)) != Lower(Filter(b, IsWordChar))
    ensures FileName(a) != FileName(b)
  {
    StemKeepsWords(a);
    StemKeepsWords(b);
  }

  /** A title made only of letters, digits and '_' is its own stem, lower-cased. */
  lemma PlainTitleFileName(t: string)
    requires forall i :: 0 <= i < |t| ==> IsWordChar(t[i])
    ensures FileName(t) == Lower(t) + ".txt"
  {
    PlainTitleCleaned(t);
    var l := Lower(t);
    forall i | 0 <= i < |l| ensures !IsSeparator(l[i]) {
      assert IsWordChar(l[i]);
      WordCharNotSpace(l[i]);
    }
    CollapseRunsNone(l, IsSeparator, '-');
  }

  /** Two words joined by any run of ASCII spaces and hyphens name the file holding both
      words, lower-cased, with one '-' between them: "My  Note" and "my-note" give
      "my-note.txt", never "mynote.txt". */
  lemma SpacedTitleFileName(p: string, run: string, q: string)
    requires p != [] && forall i :: 0 <= i < |p| ==> IsWordChar(p[i])
    requires q != [] && forall i :: 0 <= i < |q| ==> IsWordChar(q[i])
    requires run != [] && forall i :: 0 <= i < |run| ==> IsAscii(run[i]) && IsSeparator(run[i])
    ensures FileName(p + run + q) == Lower(p) + "-" + Lower(q) + ".txt"
  {
    assert IsWordChar(p[0]) && IsWordChar(q[0]);
    FileNameCollapsesSpacing(p, run, q);
    HyphenatedStem(p, q);
  }

  /** Two words joined by a single '-' are their own stem, lower-cased. */
  lemma HyphenatedStem(p: string, q: string)
    requires p != [] && forall i :: 0 <= i < |p| ==> IsWordChar(p[i])
    requires q != [] && forall i :: 0 <= i < |q| ==> IsWordChar(q[i])
    ensures SanitizedStem(p + "-" + q) == Lower(p) + "-" + Lower(q)
  {
    assert IsWordChar(p[0]) && IsWordChar(q[0]);
    LoweredAround(p, "-", q);
    PlainPartUnchanged(p);
    PlainPartUnchanged(q);
    LowerPlainHasNoSeparator(p);
    LowerPlainHasNoSeparator(q);
    CollapseRunsSingleMark(Lower(p), Lower(q), IsSeparator, '-');
    assert ['-'] == "-";
  }

  /** Lower-casing letters, digits and '_' yields no space and no '-'. */
  lemma LowerPlainHasNoSeparator(t: string)
    requires forall i :: 0 <= i < |t| ==> IsWordChar(t[i])
    ensures forall i :: 0 <= i < |Lower(t)| ==> !IsSeparator(Lower(t)[i])
  {
    forall i | 0 <= i < |Lower(t)| ensures !IsSeparator(Lower(t)[i]) {
      assert IsWordChar(t[i]);
      assert IsWordChar(Lower(t)[i]);
      WordCharNotSpace(Lower(t)[i]);
    }
  }

  /** A part made only of letters, digits and '_' passes the filters and the strips intact. */
  lemma PlainPartUnchanged(t: string)
    requires t != [] && forall i :: 0 <= i < |t| ==> IsWordChar(t[i])
    ensures StripLeft(DropSymbols(AsciiOnly(t))) == t && StripRight(DropSymbols(AsciiOnly(t))) == t
  {
    FilterKeepsAll(t, IsAscii);
    FilterKeepsAll(t, KeptBySymbolFilter);
    WordCharNotSpace(t[0]);
    WordCharNotSpace(t[|t| - 1]);
    StripLeftEmpty(t);
    StripRightEmpty(t);
  }

  lemma PlainTitleCleaned(t: string)
    requires forall i :: 0 <= i < |t| ==> IsWordChar(t[i])
    ensures Cleaned(t) == t
  {
    FilterKeepsAll(t, IsAscii);
    FilterKeepsAll(t, KeptBySymbolFilter);
    forall i | 0 <= i < |t| ensures !IsSpace(t[i]) {
      WordCharNotSpace(t[i]);
    }
    assert StripLeft(t) == t;
    assert StripRight(t) == t;
  }

  /** Whitespace around a title does not change its file name. */
  lemma FileNameIgnoresPadding(pre: string, t: string, post: string)
    requires IsBlank(pre) && IsBlank(post)
    ensures FileName(pre + t + post) == FileName(t)
  {
    var ap, at, aq := AsciiOnly(pre), AsciiOnly(t), AsciiOnly(post);
    FilterAppend(pre + t, post, IsAscii);
    FilterAppend(pre, t, IsAscii);
    FilterAppend(ap + at, aq, KeptBySymbolFilter);
    FilterAppend(ap, at, KeptBySymbolFilter);
    FilteredBlank(pre);
    FilteredBlank(post);
    StripAbsorbsPadding(DropSymbols(ap), DropSymbols(at), DropSymbols(aq));
  }

  lemma FilteredBlank(s: string)
    requires IsBlank(s)
    ensures IsBlank(DropSymbols(AsciiOnly(s)))
  {
    var d := DropSymbols(AsciiOnly(s));
    forall i | 0 <= i < |d| ensures IsSpace(d[i]) {
      assert d[i] in d;
      assert d[i] in s;
    }
  }

  // ---------------------------------------------------------------------------
  // Replies
  // ---------------------------------------------------------------------------

  const EmptyNoteError := "Error: Title and content cannot be empty."
  const EmptyEditError := "Error: Cannot replace a note with empty content."
  const NoNotesMessage := "No notes found." + " You can create one with 'add_note'."
  const ListingHeader := "Available notes:\n- "
  const NoNotesYet := "No notes yet!."
  const SummaryHeader := "Summarize the following notes:\n\n"

  function AlreadyExists(title: string): string { "Error: A note with the title '" + title + "' already exists." }
  function Created(title: string): string { "Note '" + title + "' created successfully." }
  function NotFound(title: string): string { "Error: Note with title '" + title + "' not found." }
  function Deleted(title: string): string { "Note '" + title + "' deleted successfully." }
  function Edited(title: string): string { "Note '" + title + "' edited successfully." }

  // ---------------------------------------------------------------------------
  // Reading files back, listing them
  // ---------------------------------------------------------------------------

  /** `Path.read_text()`: the file is read in universal-newline mode, so "\r\n" and a lone
      "\r" both come back as "\n"; no carriage return survives. */
  function ReadText(stored: string): (text: string)
    ensures '\r' !in text
    decreases |stored|
  {
    if stored == [] then []
    else if stored[0] == '\r' then
      "\n" + ReadText(if |stored| > 1 && stored[1] == '\n' then stored[2..] else stored[1..])
    else
      [stored[0]] + ReadText(stored[1..])
  }

  /** A line break written as "\r\n", or as a lone "\r", reads back as one "\n"; the text
      around it is unchanged. */
  lemma {:induction false} ReadTextLineBreak(a: string, b: string)
    requires '\r' !in a
    ensures ReadText(a + "\r\n" + b) == a + "\n" + ReadText(b)
    ensures (b == [] || b[0] != '\n') ==> ReadText(a + "\r" + b) == a + "\n" + ReadText(b)
    decreases |a|
  {
    if a == [] {
      assert a + "\r\n" + b == "\r\n" + b && ("\r\n" + b)[2..] == b;
      assert a + "\r" + b == "\r" + b && ("\r" + b)[1..] == b;
    } else {
      assert a[0] != '\r' by { assert a[0] in a; }
      assert '\r' !in a[1..] by {
        forall i | 0 <= i < |a[1..]| ensures a[1..][i] != '\r' { assert a[1..][i] == a[i + 1]; }
      }
      ReadTextLineBreak(a[1..], b);
      assert (a + "\r\n" + b)[1..] == a[1..] + "\r\n" + b;
      assert (a + "\r" + b)[1..] == a[1..] + "\r" + b;
      assert a == [a[0]] + a[1..];
    }
  }

  /** Text without carriage returns reads back exactly as written. */
  lemma {:induction false} ReadTextWithoutCarriageReturn(stored: string)
    requires '\r' !in stored
    ensures ReadText(stored) == stored
  {
    if stored != [] {
      var rest := stored[1..];
      assert stored[0] != '\r' by { assert stored[0] in stored; }
      assert '\r' !in rest by {
        forall i | 0 <= i < |rest| ensures rest[i] != '\r' {
          assert rest[i] == stored[i + 1];
        }
      }
      assert ReadText(rest) == rest by { ReadTextWithoutCarriageReturn(rest); }
      assert ReadText(stored) == [stored[0]] + ReadText(rest);
      assert stored == [stored[0]] + rest;
    }
  }

  /** The names `notes_dir.glob("*.txt")` yields. */
  function TxtFiles(files: map<string, string>): (names: set<string>)
    ensures forall n :: n in names <==> n in files && EndsWith(n, ".txt")
  {
    set n | n in files && EndsWith(n, ".txt")
  }

  /** An entry whose name does not end in ".txt" is not a note: adding it changes neither
      the files the listing and the summary prompt walk nor their sections. */
  lemma OtherFilesIgnored(files: map<string, string>, n: string, v: string)
    requires !EndsWith(n, ".txt")
    ensures TxtFiles(files[n := v]) == TxtFiles(files)
    ensures var names := SortedNames(TxtFiles(files));
      NoteBlocks(files[n := v], names) == NoteBlocks(files, names)
  {
    assert TxtFiles(files[n := v]) == TxtFiles(files);
  }

  /** So the listing of a directory is the same with or without such an entry. */
  lemma ListingIgnoresOtherFiles(a: NoteStore, b: NoteStore, n: string, v: string)
    requires !EndsWith(n, ".txt") && b.files == a.files[n := v]
    ensures b.ListNotes() == a.ListNotes()
  {
    OtherFilesIgnored(a.files, n, v);
  }

  /** `Path.stem` of a name ending in ".txt": the name without it, except that ".txt" on
      its own is a hidden file with no suffix and is its own stem. */
  function Stem(name: string): string {
    if |name| > 4 then name[..|name| - 4] else name
  }

  /** `f.stem.replace("-", " ").title()`: the stem with each '-' shown as a space, each word
      capitalised; no '-' is left. */
  function NoteTitle(name: string): (title: string)
    ensures |title| == |Stem(name)| && '-' !in title
    ensures forall i :: 0 <= i < |title| ==>
              LowerChar(title[i]) == if Stem(name)[i] == '-' then ' ' else LowerChar(Stem(name)[i])
    ensures forall i :: 0 <= i < |title| && IsAsciiLetter(Stem(name)[i]) ==>
              (IsAsciiUpper(title[i]) <==> i == 0 || !IsAsciiLetter(Stem(name)[i - 1]))
  {
    Title(ReplaceChar(Stem(name), '-', ' '))
  }

  function Titles(names: seq<string>): (titles: seq<string>)
    ensures |titles| == |names| && forall i :: 0 <= i < |names| ==> titles[i] == NoteTitle(names[i])
  {
    seq(|names|, i requires 0 <= i < |names| => NoteTitle(names[i]))
  }

  /** The reply of `list_notes` when there are notes: the header, then the titles. */
  function Listing(titles: seq<string>): (listing: string)
    ensures |listing| >= |ListingHeader| && listing[..|ListingHeader|] == ListingHeader
  {
    ListingHeader + Join(titles, "\n- ")
  }

  /** The prompt `notes_summary_prompt` builds from the sections of the notes. */
  function SummaryPrompt(blocks: seq<string>): (prompt: string)
    ensures |prompt| >= |SummaryHeader| && prompt[..|SummaryHeader|] == SummaryHeader
  {
    SummaryHeader + Join(blocks, "\n\n")
  }

  /** One section of the summary prompt. */
  function NoteBlock(title: string, content: string): string {
    "--- Note: " + title + " ---\n" + content
  }

  /** The sections of the summary prompt for `names`, in that order. */
  function NoteBlocks(files: map<string, string>, names: seq<string>): (blocks: seq<string>)
    requires forall n :: n in names ==> n in files
    ensures |blocks| == |names|
    ensures forall i :: 0 <= i < |names| ==> blocks[i] == NoteBlock(NoteTitle(names[i]), ReadText(files[names[i]]))
  {
    seq(|names|, i requires 0 <= i < |names| => NoteBlock(NoteTitle(names[i]), ReadText(files[names[i]])))
  }

  // ---------------------------------------------------------------------------
  // The directory of notes
  // ---------------------------------------------------------------------------

  class NoteStore {
    /** The `notes_data` directory: file name to the text written to that file. */
    var files: map<string, string>

    constructor (existing: map<string, string>)
      ensures files == existing
    {
      files := existing;
    }

    /** `add_note`: a blank title or content is refused before anything else; then an
        existing file for the title is refused; otherwise the stripped content is written
        under the title's file name and no other file changes. */
    method AddNote(title: string, content: string) returns (reply: string)
      modifies this
      ensures IsBlank(title) || IsBlank(content) ==> reply == EmptyNoteError && files == old(files)
      ensures !IsBlank(title) && !IsBlank(content) && FileName(title) in old(files) ==>
                reply == AlreadyExists(title) && files == old(files)
      ensures !IsBlank(title) && !IsBlank(content) && FileName(title) !in old(files) ==>
                reply == Created(title) && files == old(files)[FileName(title) := Strip(content)]
    {
      if Strip(title) == [] || Strip(content) == [] {
        return EmptyNoteError;
      }
      var name := FileName(title);
      if name in files {
        return AlreadyExists(title);
      }
      files := files[name := Strip(content)];
      reply := Created(title);
    }

    /** `read_note`: the file's text as `read_text` gives it, or the not-found message. */
    function ReadNote(title: string): (text: string)
      reads this
      ensures FileName(title) in files ==> text == ReadText(files[FileName(title)])
      ensures FileName(title) !in files ==> text == NotFound(title)
    {
      var name := FileName(title);
      if name in files then ReadText(files[name]) else NotFound(title)
    }

    /** `delete_note`: removes exactly the title's file, or reports it missing and changes nothing. */
    method DeleteNote(title: string) returns (reply: string)
      modifies this
      ensures FileName(title) in old(files) ==>
                reply == Deleted(title) && files == old(files) - {FileName(title)}
      ensures FileName(title) !in old(files) ==> reply == NotFound(title) && files == old(files)
    {
      var name := FileName(title);
      if name !in files {
        return NotFound(title);
      }
      files := files - {name};
      reply := Deleted(title);
    }

    /** `edit_note`: blank new content is refused before the file is looked for; a missing
        file is reported; otherwise only that file is replaced, by the stripped content. */
    method EditNote(title: string, newContent: string) returns (reply: string)
      modifies this
      ensures IsBlank(newContent) ==> reply == EmptyEditError && files == old(files)
      ensures !IsBlank(newContent) && FileName(title) !in old(files) ==>
                reply == NotFound(title) && files == old(files)
      ensures !IsBlank(newContent) && FileName(title) in old(files) ==>
                reply == Edited(title) && files == old(files)[FileName(title) := Strip(newContent)]
    {
      if Strip(newContent) == [] {
        return EmptyEditError;
      }
      var name := FileName(title);
      if name !in files {
        return NotFound(title);
      }
      files := files[name := Strip(newContent)];
      reply := Edited(title);
    }

    /** `list_notes`: the fixed message exactly when there is no ".txt" file; otherwise the
        header and one title per file, in ascending file-name order. */
    function ListNotes(): (listing: string)
      reads this
      ensures listing == NoNotesMessage <==> TxtFiles(files) == {}
      ensures TxtFiles(files) != {} ==> listing == Listing(Titles(SortedNames(TxtFiles(files))))
    {
      if TxtFiles(files) == {} then NoNotesMessage
      else
        var listing := Listing(Titles(SortedNames(TxtFiles(files))));
        assert listing[0] == ListingHeader[0] == 'A';
        assert NoNotesMessage[0] == 'N';
        listing
    }

    /** `notes_summary_prompt`: walks the ".txt" files in ascending name order, collecting
        one section per note, then asks for a summary of them, or says there are none. */
    method NotesSummaryPrompt() returns (prompt: string)
      ensures prompt == NoNotesYet <==> TxtFiles(files) == {}
      ensures TxtFiles(files) != {} ==>
                prompt == SummaryPrompt(NoteBlocks(files, SortedNames(TxtFiles(files))))
    {
      var names := SortedNames(TxtFiles(files));
      var allContent := CollectBlocks(names);
      if allContent == [] {
        assert TxtFiles(files) == {} by {
          assert |names| == 0;
        }
        return NoNotesYet;
      }
      prompt := SummaryPrompt(allContent);
      assert prompt != NoNotesYet by {
        assert prompt[0] == 'S' && NoNotesYet[0] == 'N';
      }
    }

    /** The loop of `notes_summary_prompt`: one section per named file, in the given order. */
    method CollectBlocks(names: seq<string>) returns (allContent: seq<string>)
      requires forall n :: n in names ==> n in files
      ensures allContent == NoteBlocks(files, names)
    {
      allContent := [];
      var i := 0;
      while i < |names|
        invariant 0 <= i <= |names|
        invariant |allContent| == i
        invariant forall j :: 0 <= j < i ==>
                    allContent[j] == NoteBlock(NoteTitle(names[j]), ReadText(files[names[j]]))
      {
        var name := names[i];
        allContent := allContent + [NoteBlock(NoteTitle(name), ReadText(files[name]))];
        i := i + 1;
      }
    }
  }

  // ---------------------------------------------------------------------------
  // What a sequence of tool calls does
  // ---------------------------------------------------------------------------

  /** After a successful add, reading the note gives back the stripped content (carriage
      returns aside, which `read_text` turns into newlines). */
  method AddThenRead(existing: map<string, string>, title: string, content: string)
    returns (added: string, read: string)
    requires !IsBlank(title) && !IsBlank(content) && FileName(title) !in existing
    ensures added == Created(title)
    ensures read == ReadText(Strip(content))
    ensures '\r' !in content ==> read == Strip(content)
  {
    var store := new NoteStore(existing);
    added := store.AddNote(title, content);
    read := store.ReadNote(title);
    if '\r' !in content {
      ReadTextWithoutCarriageReturn(Strip(content));
    }
  }

  /** Two titles with the same file name (for instance differing only in case, symbols or
      spacing): the second add is refused as a duplicate and leaves the directory as the
      first add left it. */
  method AddSameFileTwice(existing: map<string, string>, first: string, second: string,
                          firstContent: string, secondContent: string)
    returns (firstReply: string, secondReply: string, after: map<string, string>)
    requires FileName(first) == FileName(second)
    requires !IsBlank(first) && !IsBlank(firstContent) && FileName(first) !in existing
    requires !IsBlank(second) && !IsBlank(secondContent)
    ensures firstReply == Created(first)
    ensures secondReply == AlreadyExists(second)
    ensures after == existing[FileName(first) := Strip(firstContent)]
  {
    var store := new NoteStore(existing);
    firstReply := store.AddNote(first, firstContent);
    secondReply := store.AddNote(second, secondContent);
    after := store.files;
  }

  /** After a successful edit, reading the note gives the new stripped content. */
  method EditThenRead(existing: map<string, string>, title: string, newContent: string)
    returns (edited: string, read: string, after: map<string, string>)
    requires !IsBlank(newContent) && FileName(title) in existing
    ensures edited == Edited(title)
    ensures read == ReadText(Strip(newContent))
    ensures '\r' !in newContent ==> read == Strip(newContent)
    ensures after.Keys == existing.Keys
    ensures forall n :: n in existing && n != FileName(title) ==> after[n] == existing[n]
  {
    var store := new NoteStore(existing);
    edited := store.EditNote(title, newContent);
    read := store.ReadNote(title);
    after := store.files;
    if '\r' !in newContent {
      ReadTextWithoutCarriageReturn(Strip(newContent));
    }
  }

  /** After a delete, the note is gone: reading it reports it missing, and a second delete
      does too. */
  method DeleteThenRead(existing: map<string, string>, title: string)
    returns (deleted: string, read: string, again: string)
    requires FileName(title) in existing
    ensures deleted == Deleted(title)
    ensures read == NotFound(title)
    ensures again == NotFound(title)
  {
    var store := new NoteStore(existing);
    deleted := store.DeleteNote(title);
    read := store.ReadNote(title);
    again := store.DeleteNote(title);
  }

  /** Every name `list_notes` shows is a ".txt" file of the directory, each such file once,
      in strictly ascending order; no other order or selection has these properties. */
  lemma ListingOrderIsDetermined(files: map<string, string>, names: seq<string>)
    requires StrictlySorted(names)
    requires forall n :: n in names <==> n in files && EndsWith(n, ".txt")
    ensures names == SortedNames(TxtFiles(files))
  {
    SortedNamesUnique(TxtFiles(files), names);
  }

  /** The listing has the header line and then one "- <title>" line per note, in order,
      whenever no title contains a line break. */
  lemma ListingLines(titles: seq<string>)
    requires |titles| >= 1
    requires forall i :: 0 <= i < |titles| ==> '\n' !in titles[i]
    ensures Split(Listing(titles), '\n')
      == ["Available notes:"] + seq(|titles|, i requires 0 <= i < |titles| => "- " + titles[i])
  {
    var joined := Join(titles, "\n- ");
    assert Split(Listing(titles), '\n') == ["Available notes:"] + Split("- " + joined, '\n') by {
      assert Listing(titles) == "Available notes:" + ['\n'] + ("- " + joined);
      SplitAfter("Available notes:", "- " + joined, '\n');
    }
    BulletLines(titles);
  }

  /** The titles joined with "\n- " and opened by "- " split into one "- <title>" line each. */
  lemma BulletLines(titles: seq<string>)
    requires |titles| >= 1
    requires forall i :: 0 <= i < |titles| ==> '\n' !in titles[i]
    ensures Split("- " + Join(titles, "\n- "), '\n')
      == seq(|titles|, i requires 0 <= i < |titles| => "- " + titles[i])
  {
    var joined := Join(titles, "\n- ");
    var js := Split(joined, '\n');
    assert js == [titles[0]] + seq(|titles| - 1, i requires 0 <= i < |titles| - 1 => "- " + titles[i + 1]) by {
      assert "\n- " == ['\n'] + "- ";
      SplitJoin(titles, '\n', "- ");
    }
    assert Split("- " + joined, '\n') == ["- " + js[0]] + js[1..] by {
      assert '\n' !in "- ";
      SplitPrepend("- ", joined, '\n');
    }
    BulletFirstLine(titles, js);
  }

  lemma BulletFirstLine(titles: seq<string>, js: seq<string>)
    requires |titles| >= 1
    requires js == [titles[0]] + seq(|titles| - 1, i requires 0 <= i < |titles| - 1 => "- " + titles[i + 1])
    ensures ["- " + js[0]] + js[1..] == seq(|titles|, i requires 0 <= i < |titles| => "- " + titles[i])
  {
    var lines := seq(|titles|, i requires 0 <= i < |titles| => "- " + titles[i]);
    forall i | 0 <= i < |lines| ensures (["- " + js[0]] + js[1..])[i] == lines[i] {
      if i > 0 { assert js[1..][i - 1] == js[i]; }
    }
  }
}
