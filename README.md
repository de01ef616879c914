# Model of four MCP tool servers

The repository holds small servers for the Model Context Protocol (MCP). Each server exposes
Python functions to a language model as "tools", "resources" and "prompts". This project
models the logic of four of those servers in Dafny:

- **Notes server** (`mcp-server-notes/notes.py`):
  - The title sanitiser that maps a note title to a file name.
  - The `notes_data` directory, modelled as a class `NoteStore` whose field `files` maps
    each file name to the text stored in it.
  - The tools that add, read, edit, delete and list notes.
  - The prompt that collects every note for summarising.
- **Pokémon server** (`mcp-server-pokemon/pokemon.py`):
  - The normalisation of a name into a PokeAPI request URL, and how each HTTP outcome
    becomes a record.
  - The info formatting, including the stats dictionary, which keeps first-insertion order
    and last-written value.
  - The fixed popular list.
  - The tournament-squad loop, which stops at the first error.
- **Calculator server** (`mcp-basic/mcp-server/calculator.py`): the tool that dispatches on a
  case-insensitive operation name, and the greetings resource.
- **Wiki-summary server** (`streamlit-mcp/server.py`): the `summarize_wikipedia_article` tool.
  That covers its URL check, the status and content checks, the prompt handed to the
  language model, and how exceptions are turned into MCP error data.

Everything outside the servers' own logic is a parameter of the model: the network, the HTML
parser, the HTML-to-Markdown converter and the language model. For example, the Pokémon
lookup takes a function `string -> HttpOutcome`. The wiki tool takes a `Collaborators`
value, whose four functions each either return a value or raise a modelled Python exception.

The Python string operations the code relies on are written out in module `Strings`:
- `str.strip` and `str.isspace`.
- ASCII `lower`, `upper`, `capitalize` and `title`.
- `join` and `split` on a single character.
- `str(int)`.
- Code-point order, which is what `sorted` uses on file names.

Files:
- `wrappers.dfy`: `Option`.
- `strings.dfy`: the string operations and their lemmas.
- `notes.dfy`, `pokemon.dfy`, `calculator.dfy`, `wiki_summary.dfy`: one module per server.

## Model

| member | source | states |
|---|---|---|
| Strings.Strip | mcp-server-notes/notes.py:80 | the result is empty exactly when the input is blank; otherwise it neither begins nor ends with whitespace, and all its characters come from the input |
| Strings.StripKeepsInterior | mcp-server-notes/notes.py:85 | stripping removes only the blank ends: everything between the first and last non-blank parts is kept unchanged |
| Strings.StripAbsorbsPadding | mcp-server-pokemon/pokemon.py:17 | whitespace added around a string does not change its stripped form |
| Strings.Capitalize | mcp-server-pokemon/pokemon.py:58 | same length and same letters up to case; the first character is not a lower-case letter and no later one is upper-case |
| Strings.CapitalizeIgnoresCase | mcp-server-pokemon/pokemon.py:116 | names that agree up to case capitalise to the same text |
| Strings.Title | mcp-server-notes/notes.py:64 | same letters up to case; a letter is upper-case exactly when it starts the string or follows a non-letter |
| Strings.SplitJoin | mcp-server-notes/notes.py:65 | splitting a join of parts free of the separator character gives back the parts, each after the first carrying the rest of the separator text |
| Strings.JoinSplit | mcp-server-pokemon/pokemon.py:118 | joining the pieces of a split on the same character rebuilds the string |
| Strings.SortedNames | mcp-server-notes/notes.py:61 | the names of the set, each once, in strictly increasing code-point order |
| Strings.NatToStringRoundTrip | mcp-server-pokemon/pokemon.py:83 | the decimal text of a number reads back to the number |
| Strings.SortedNamesUnique | mcp-server-notes/notes.py:61 | the sorted listing of a set of names is the only strictly increasing sequence holding exactly those names |
| Notes.CollapseSeparators | mcp-server-notes/notes.py:35 | the result has no two adjacent '-', and every character is '-' or a non-separator character of the input; it is empty exactly when the input is, and begins with '-' exactly when the input begins with a separator |
| Strings.CollapseRun | mcp-server-notes/notes.py:35 | any non-empty run of '-' and whitespace collapses exactly as a single '-' would |
| Notes.SanitizedStem | mcp-server-notes/notes.py:29-35 | the stem holds only lower-case ASCII letters, digits, '_' and '-', with no two adjacent '-' |
| Notes.FileName | mcp-server-notes/notes.py:25-36 | the file name ends in ".txt" and what precedes it is a valid stem |
| Notes.FileNameIgnoresCase | mcp-server-notes/notes.py:34 | titles that agree up to letter case name the same file |
| Notes.FileNameIgnoresSymbol | mcp-server-notes/notes.py:34 | inserting an ASCII character other than a letter, digit, '_', '-' or whitespace into a title does not change its file name |
| Notes.FileNameDropsNonAscii | mcp-server-notes/notes.py:29-33 | in this model, inserting a character outside ASCII into a title does not change its file name |
| Notes.StemKeepsWords | mcp-server-notes/notes.py:29-35 | with its '-' marks left out, the stem is exactly the title's letters, digits and '_', lower-cased, in their order |
| Notes.DifferentWordsDifferentFiles | mcp-server-notes/notes.py:82-84 | in this model, titles whose letters, digits and '_' differ other than in case name different files, so neither blocks the other's add |
| Notes.PlainTitleFileName | mcp-server-notes/notes.py:25-36 | a title made only of letters, digits and '_' is stored as its lower-cased self followed by ".txt" |
| Notes.FileNameIgnoresPadding | mcp-server-notes/notes.py:34 | whitespace before and after a title does not change its file name |
| Notes.FileNameCollapsesSpacing | mcp-server-notes/notes.py:34-35 | between two parts that each hold a word character, any run of ASCII spaces and dashes gives the same file name as one '-' |
| Notes.SpacedTitleFileName | mcp-server-notes/notes.py:34-36 | two runs of letters, digits and '_' joined by any run of ASCII spaces and hyphens name the file holding both, lower-cased, with exactly one '-' between them, so "my note" gives "my-note.txt", not "mynote.txt" |
| Notes.ReadText | mcp-server-notes/notes.py:102 | text read back contains no carriage return |
| Notes.ReadTextLineBreak | mcp-server-notes/notes.py:102 | a stored "\r\n", or a lone "\r" not followed by "\n", reads back as a single "\n", with the text before it unchanged and the text after it read the same way |
| Notes.ReadTextWithoutCarriageReturn | mcp-server-notes/notes.py:85 | text without carriage returns reads back exactly as it was written |
| Notes.OtherFilesIgnored | mcp-server-notes/notes.py:181-186 | an entry whose name does not end in ".txt" changes neither the files the listing and the summary prompt walk nor the prompt's sections |
| Notes.ListingIgnoresOtherFiles | mcp-server-notes/notes.py:60-65 | two directories that differ only in an entry not ending in ".txt" list the same notes |
| Notes.NoteTitle | mcp-server-notes/notes.py:64 | the title has the stem's length and no '-': each '-' shows as a space, other characters keep their letter, and a letter is upper-case exactly when it starts a word |
| Notes.NoteStore.AddNote | mcp-server-notes/notes.py:68-86 | blank title or content: the empty-input error and nothing written; existing file: the already-exists error and nothing written; otherwise only the title's file is added, holding the stripped content, with the created message |
| Notes.NoteStore.ReadNote | mcp-server-notes/notes.py:89-104 | the stored text of the title's file in universal-newline form, or the not-found message when there is no such file |
| Notes.NoteStore.DeleteNote | mcp-server-notes/notes.py:107-123 | an existing file is removed and nothing else changes; a missing one gives the not-found message and the directory is unchanged |
| Notes.NoteStore.EditNote | mcp-server-notes/notes.py:126-144 | blank new content is refused before the lookup; a missing file gives the not-found message; otherwise only that file's text is replaced, by the stripped content |
| Notes.NoteStore.ListNotes | mcp-server-notes/notes.py:52-65 | the fixed message exactly when no ".txt" file exists; otherwise the header followed by the titles of the ".txt" files in ascending name order |
| Notes.NoteStore.CollectBlocks | mcp-server-notes/notes.py:182-186 | the loop collects one section per named file, in the given order, each the file's title and its text as read back |
| Notes.NoteStore.NotesSummaryPrompt | mcp-server-notes/notes.py:169-191 | "No notes yet!." exactly when no ".txt" file exists; otherwise the summary header followed by one "--- Note: title ---" section per file, in ascending name order, with the file's text |
| Notes.AddThenRead | mcp-server-notes/notes.py:68-104 | after a successful add, reading the note gives back the stripped content |
| Notes.AddSameFileTwice | mcp-server-notes/notes.py:82-84 | a second title that sanitises to the same file is refused as already existing, and the first note is kept |
| Notes.EditThenRead | mcp-server-notes/notes.py:89-144 | after a successful edit, reading gives the new stripped content and every other note is unchanged |
| Notes.DeleteThenRead | mcp-server-notes/notes.py:89-123 | after a delete, both reading and deleting again report the note as missing |
| Notes.ListingOrderIsDetermined | mcp-server-notes/notes.py:61 | any strictly sorted sequence of exactly the ".txt" names is the order the listing uses |
| Notes.ListingLines | mcp-server-notes/notes.py:65 | the listing splits into the header line and one "- title" line per note, in order |
| Pokemon.LookupKey | mcp-server-pokemon/pokemon.py:17 | the key has no upper-case letter and no leading or trailing whitespace, and a blank name gives the empty key (so the bare base URL is requested) |
| Pokemon.RequestUrl | mcp-server-pokemon/pokemon.py:21 | the URL is the API base followed by the normalised name |
| Pokemon.LookupKeyOfPadded | mcp-server-pokemon/pokemon.py:17 | the key of a name with blank padding around it is the name itself, lower-cased |
| Pokemon.RequestUrlIgnoresCaseAndPadding | mcp-server-pokemon/pokemon.py:17-21 | names that agree up to case and surrounding whitespace request the same URL |
| Pokemon.FetchPokemonData | mcp-server-pokemon/pokemon.py:14-38 | a transport failure, a non-2xx status and any other failure each give a record holding only the matching error text; 200 gives the decoded body; another 2xx status gives the empty record |
| Pokemon.Insert | mcp-server-pokemon/pokemon.py:64-66 | dictionary assignment: keys stay distinct, a new key goes at the end, an existing key keeps its place and takes the new value |
| Pokemon.Dedup | mcp-server-pokemon/pokemon.py:64-66 | the same names as the input, without repeats |
| Pokemon.DedupOrder | mcp-server-pokemon/pokemon.py:64-66 | names appear in the order of their first occurrence |
| Pokemon.StatsDict | mcp-server-pokemon/pokemon.py:64-66 | the stat names in first-occurrence order, each paired with the last base stat given for it |
| Pokemon.LastValueExists | mcp-server-pokemon/pokemon.py:64-66 | a stat has a value in the dictionary exactly when some entry names it |
| Pokemon.FormatInfo | mcp-server-pokemon/pokemon.py:53-84 | an error in the data is returned verbatim; a missing stats, types or abilities field gives the processing error for that key, checked in that order; otherwise the text opens with a line break and the Name line holding the capitalised name |
| Pokemon.GetPokemonInfo | mcp-server-pokemon/pokemon.py:42-84 | the error of a failed lookup comes back unchanged: the request error for a transport failure, the response error for a status outside 2xx; a 2xx status other than 200 gives the processing error for 'stats' |
| Pokemon.FormattedInfoLines | mcp-server-pokemon/pokemon.py:76-84 | the info text splits exactly into its lines: blank, Name, ID, Height, Weight, Types, Abilities, Base Stats, trailing indent |
| Pokemon.NamesLineParts | mcp-server-pokemon/pokemon.py:81-82 | a types or abilities line splits on commas back into the individual names |
| Pokemon.NameIgnoresCase | mcp-server-pokemon/pokemon.py:58 | records whose names agree up to case format identically |
| Pokemon.ListPopularPokemon | mcp-server-pokemon/pokemon.py:122-142 | the list opens with the fixed header and holds nine commas, one between each two of the ten names |
| Pokemon.PopularListParts | mcp-server-pokemon/pokemon.py:122-142 | the popular list splits on commas into exactly the ten names, in order, after the header |
| Pokemon.CreateTournamentSquad | mcp-server-pokemon/pokemon.py:88-118 | the reply is the squad outcome of the ten lookups; the lookups made are the whole list, or the list up to and including the first failing name |
| Pokemon.StopIndexAt | mcp-server-pokemon/pokemon.py:112-116 | the stopping point is the first record that carries an error or has no name |
| Pokemon.SquadOutcome | mcp-server-pokemon/pokemon.py:112-118 | the first record with an error or without a name decides the reply (its error text, or the KeyError for 'name'); when there is none, the reply is the header and the capitalised names joined by ", " |
| Pokemon.SquadOfFoundNames | mcp-server-pokemon/pokemon.py:112-118 | when every lookup succeeds, the reply is the header and the ten found names capitalised, in list order |
| Pokemon.SquadPartsOfFoundNames | mcp-server-pokemon/pokemon.py:117-118 | when every lookup succeeds with a name free of commas, the reply splits on "," into ten parts |
| Pokemon.SquadOfEchoLookup | mcp-server-pokemon/pokemon.py:97-118 | when every lookup echoes its name, the squad is the ten capitalised names, starting with "Charizard" |
| Pokemon.SquadReturnsFirstError | mcp-server-pokemon/pokemon.py:113-115 | the first lookup with an error ends the loop, and its error text is the reply |
| Calculator.Calculate | mcp-basic/mcp-server/calculator.py:11-30 | each of the four operations, after lower-casing, gives its result; divide by zero gives the message; an unknown name gives "Invalid operation" |
| Calculator.CalculateIgnoresCase | mcp-basic/mcp-server/calculator.py:16 | operation names that agree up to letter case give the same result |
| Calculator.UpperCaseOperation | mcp-basic/mcp-server/calculator.py:16 | the upper-case spelling of an operation acts as the operation |
| Calculator.InvalidExactlyForUnknown | mcp-basic/mcp-server/calculator.py:17-30 | "Invalid operation" comes back exactly for names outside the four operations |
| Calculator.NoDivisionByZero | mcp-basic/mcp-server/calculator.py:24-26 | a zero divisor never yields a quotient |
| Calculator.QuotientOnlyFromDivide | mcp-basic/mcp-server/calculator.py:24-28 | only "divide" with a non-zero divisor yields a quotient, with the operands in order |
| Calculator.GetGreetings | mcp-basic/mcp-server/calculator.py:33-35 | the resource holds the fixed welcome text |
| WikiSummary.UrlAcceptedIffHttpPrefix | streamlit-mcp/server.py:49-50 | the URL check accepts exactly the URLs that begin with "http", including "httpfoo" |
| WikiSummary.SummaryPrompt | streamlit-mcp/server.py:81 | the prompt is the fixed head, then the Markdown unchanged, then the fixed tail |
| WikiSummary.TryBlock | streamlit-mcp/server.py:47-87 | a rejected URL raises the ValueError; an exception from the GET propagates; a status other than 200 raises an McpError with INVALID_PARAMS and the status message |
| WikiSummary.Handle | streamlit-mcp/server.py:89-109 | a ValueError becomes INVALID_PARAMS with its text; a RequestException becomes INTERNAL_ERROR "Request Error: …"; anything else, an McpError included, becomes INTERNAL_ERROR "Unexpected Error: …" |
| WikiSummary.SummarizeWikipediaArticle | streamlit-mcp/server.py:37-109 | a bad URL fails with INVALID_PARAMS; a status other than 200 fails with INTERNAL_ERROR and the status message; a failed GET fails as the handler maps it |
| WikiSummary.RejectedUrlFetchesNothing | streamlit-mcp/server.py:49-50 | for a rejected URL the outcome does not depend on the network, parser or model |
| WikiSummary.MissingContentIsRewrapped | streamlit-mcp/server.py:68-75 | a page without the main content block fails with INTERNAL_ERROR "Unexpected Error: Failed to find the main content of the article." |
| WikiSummary.RequestFailureIsInternal | streamlit-mcp/server.py:97-102 | a RequestException from the GET fails with INTERNAL_ERROR and "Request Error: " + its text |
| WikiSummary.SuccessfulSummary | streamlit-mcp/server.py:65-87 | when every step succeeds, the result is the model's reply, stripped |
| WikiSummary.InvalidParamsOnlyFromValueErrors | streamlit-mcp/server.py:89-95 | an INVALID_PARAMS failure can only come from a ValueError raised in the try block |
| WikiSummary.HandleIntended | streamlit-mcp/server.py:56-75 | an McpError passes through with its own error data; other exceptions are handled as in the source |
| WikiSummary.SummarizeIntended | streamlit-mcp/server.py:56-62 | with the pass-through handler, a status other than 200 fails with INVALID_PARAMS and the status message |
| WikiSummary.IntendedAgreesOutsideMcpErrors | streamlit-mcp/server.py:89-109 | the corrected tool agrees with the source whenever the try block does not raise an McpError |
| WikiSummary.IntendedMissingContent | streamlit-mcp/server.py:68-75 | with the pass-through handler, a page without the main content block fails with INVALID_PARAMS |
| WikiSummary.NotFoundPageIsRewrapped | streamlit-mcp/server.py:56-62 | for a 404 the source reports INTERNAL_ERROR "Unexpected Error: Failed to fetch the article. Status code: 404", where the corrected tool reports INVALID_PARAMS "Failed to fetch the article. Status code: 404" |

## Left out

- Notes.FileNameDropsNonAscii: holds of the model only, not of the program. Unicode NFKD normalisation in the sanitiser is not modelled: every non-ASCII character is dropped, so 'é', which NFKD turns into 'e', and a no-break space, which NFKD turns into a space, are lost instead.
- Notes.StemKeepsWords: counts only ASCII letters, digits and '_' as the title's words, for the same reason.
- Notes.DifferentWordsDifferentFiles: holds of the program only for ASCII titles. With NFKD, "é" and "e" both give "e.txt", so "Café" blocks "cafe", while the model keeps them apart.
- Case mapping is ASCII only. Python's `lower`, `upper`, `capitalize` and `title` also map non-ASCII letters. For the calculator's four operation words the outcome agrees on every input: the only non-ASCII character that Python lower-cases to a single ASCII letter is KELVIN SIGN, giving 'k', which none of the four words contains, and a character that lower-cases to two characters (such as 'İ') cannot yield one of the words either.
- `\w` is taken as ASCII letters, digits and '_'. This matches Python once the text is ASCII.
- Strings.Title: "letter" means an ASCII letter. Python's `title` also treats other cased characters as letters.
- The notes directory is taken to be on a POSIX file system: file names are compared case-sensitively (a key lookup stands for `exists()`), and `sorted` orders them by code point. A case-insensitive file system, on which an existing "Foo.txt" would also answer for "foo.txt", is not modelled.
- File-system errors are not modelled: `mkdir`, permission and encoding failures. The directory is a map from file name to text, so directories named "*.txt" are not modelled either.
- Notes.ReadText: newline translation is modelled for reading only. Writing is taken to be on a system that writes "\n" unchanged.
- `get_latest_notes` (`mcp-server-notes/notes.py:150-166`) is not modelled. It picks a file by modification time, and the model has no clock or file times.
- Calculator.Calculate: only integer operands are modelled. Float operands are left out, and so is the two-decimal text of a quotient: it appears only as `FormattedQuotient(a, b)`.
- The HTTP client, JSON decoding, BeautifulSoup, html2text and the language model are parameters of the model, not implementations.
- Pokemon.FetchPokemonData: the `repr` of the request URL, including any percent-encoding, is taken from the outcome rather than computed.
- Pokemon.FetchPokemonData: a malformed JSON body is represented by a description only.
- Pokemon.FormatInfo: inner entries of the stats, types and abilities lists are assumed well formed. A KeyError inside an entry, and `id`, `height` or `weight` that are not integers, are not modelled.
- WikiSummary.Handle: `str()` of an McpError is taken to be its message, which is what the MCP library sets it to.
- The MCP session, transport (stdio, SSE, Starlette) and tool dispatch are not modelled, nor is `async` scheduling. Each tool is one call.
- `mcp-youtube-transcript/youtube_transcript.py` and the Streamlit client and UI files are not part of this model.

## Findings

| source | as written | input that shows it | evidently intended | confidence | as-written member | corrected member |
|---|---|---|---|---|---|---|
| streamlit-mcp/server.py:56-62, 104-109 | the McpError raised inside the try block for a bad status (and for missing content) is caught by the generic `except Exception` and re-raised as INTERNAL_ERROR "Unexpected Error: …" | an accepted URL whose GET returns status 404 | the McpError reaches the caller unchanged, with INVALID_PARAMS and "Failed to fetch the article. Status code: 404" | high; not executed | WikiSummary.NotFoundPageIsRewrapped | WikiSummary.SummarizeIntended |
