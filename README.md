# Vancouver Live Chat: message store and points engine

A Dafny model of the state logic of the Streamlit page `streamlit_app.py`.
The page is a single chat room. Messages vanish five minutes after they
are posted, and every message sent earns its poster ten points. The page
keeps two collections in its session state:

- `messages`: a list of `{user, message, timestamp}` records in arrival order;
- `points`: a dictionary from user name to score.

Each run of the script does four things in order:

1. it creates the current user's points entry at 0 if it is absent;
2. it drops every message that is five minutes old or older;
3. it renders the room;
4. if Send was pressed and the input is not blank after `strip()`, it
   HTML-escapes the input, appends it as a new message and adds ten to the
   poster's score.

The model has five modules:

- `Sanitizer`: `html.escape` with `quote=True`. It is written character by
  character (`Escape`). It is also written as the standard library's chain
  of five `str.replace` calls (`ReplaceChain`), and a lemma proves the two
  equal. `Unescape` is its inverse.
- `Text`: `str.strip()` (`TrimStart`, `TrimEnd`, `Strip`), the blank test
  `IsBlank`, and the lemma that an input is blank exactly when it is all
  whitespace.
- `Store`: the `Message` record, the five-minute window and the sweep's
  list comprehension (`Retained`).
- `Session`: the session state as a value `Room`, with one function per
  step of the script (`EnsureUser`, `Sweep`, `Post`, `Run` for a whole run,
  `Replay` for a series of runs). The rules these steps obey are lemmas here.
- `Chat`: the class `ChatRoom` with fields `messages: seq<Message>` and
  `points: map<string, int>`. Its methods update the fields in place, as the
  script does. Each method's postcondition equates its new state with the
  matching `Session` function of the old state, and it keeps the invariant
  `Valid()`.

Time is an integer number of microseconds, the resolution of `datetime`. So
`timedelta(minutes=5)` is `Store.Window` = 300 000 000. The clock
(`datetime.now()`) is not modelled: the current time is a parameter of the
sweep and of the post. A whole run takes two readings, one at the sweep
(line 182) and one at the append (line 228), because the script reads the
clock twice.

The retention rule is the code's, `timestamp > now - 5 minutes`
(line 183). A message exactly five minutes old is therefore dropped
(`Store.RetentionBoundary`). An expiry rule written as
`now - createdAt > window` would keep such a message; the code's does not.

The sweep at line 212 runs on every run of the script, whether or not Send
was pressed, so messages expire on the page's periodic refresh as well as
on a post.

The script escapes only the message text. The user name from the sidebar
is stored as typed (line 226), so the room invariant `Session.Valid` says
nothing about names.

## Model

| member | source | states |
|---|---|---|
| `Sanitizer.Escape` | streamlit_app.py:186-187 | the escaped text contains no `<`, `>`, `"` or `'`, and is never shorter than the input |
| `Sanitizer.EscapeIsReplaceChain` | streamlit_app.py:186-187 | escaping each character on its own gives the same text as the five successive replacements, `&` first, so no entity produced by one call is escaped again within it |
| `Sanitizer.UnescapeEscape` | streamlit_app.py:186-187 | escaping loses nothing: decoding the five entities gives back the original input |
| `Sanitizer.EscapeInjective` | streamlit_app.py:186-187 | two different inputs never give the same escaped text |
| `Sanitizer.EscapeChangesIffMarkup` | streamlit_app.py:186-187 | the escaped text equals the input exactly when the input has none of `&`, `<`, `>`, `"`, `'` |
| `Sanitizer.EscapeIsEscaped` | streamlit_app.py:224 | what the send branch stores is in escaped form: escaping its decoding gives it back |
| `Sanitizer.EscapeTagExample` | streamlit_app.py:186-187 | `<b>hi</b>` is stored as `&lt;b&gt;hi&lt;/b&gt;` |
| `Sanitizer.EscapeTwiceDiffers` | streamlit_app.py:224 | escaping is not idempotent: `<` escaped twice is `&amp;lt;`, not `&lt;`, so the input must be escaped exactly once |
| `Text.TrimStartSpec` | streamlit_app.py:223 | `lstrip()` returns the suffix of the input left after removing only leading whitespace, and it starts with a non-whitespace character or is empty |
| `Text.TrimEndSpec` | streamlit_app.py:223 | `rstrip()` returns the prefix of the input left after removing only trailing whitespace, and it ends with a non-whitespace character or is empty |
| `Text.StripEndsAtText` | streamlit_app.py:223 | what `strip()` returns is empty or starts and ends at a non-whitespace character |
| `Text.BlankIffAllWhitespace` | streamlit_app.py:223 | the input is blank after `strip()` exactly when every character is whitespace (the empty input included) |
| `Text.SpacesAreBlank` | streamlit_app.py:223 | `"   "`, `""` and `"\t\n"` are blank |
| `Store.Retained` | streamlit_app.py:183 | the sweep's result is no longer than its input and holds exactly the input messages whose timestamp is later than `now` minus five minutes |
| `Store.RetainedIsSubsequence` | streamlit_app.py:183 | the survivors are a subsequence of the input: their relative order is kept and nothing is added |
| `Store.RetainedCounts` | streamlit_app.py:183 | every copy of a live message survives and no copy of an expired one does |
| `Store.RetainedComposes` | streamlit_app.py:183 | a later sweep after an earlier one gives what the later sweep alone gives, so a message removed earlier never reappears |
| `Store.RetainedIdempotent` | streamlit_app.py:183 | sweeping twice at the same time is the same as sweeping once |
| `Store.RetentionBoundary` | streamlit_app.py:183 | a message exactly five minutes old is removed, and one a microsecond younger is kept |
| `Store.RetainedOfLiveIsAll` | streamlit_app.py:183 | when every message is live, the sweep keeps the list unchanged |
| `Store.RetainedOfChronologicalIsSuffix` | streamlit_app.py:183 | on a list with non-decreasing timestamps the expired messages form a prefix, and the survivors are a suffix |
| `Store.SweepExample` | streamlit_app.py:183 | of messages at 0 s, 1 s and 400 s, a sweep at 301 s keeps exactly the third |
| `Session.ValidInitial` | streamlit_app.py:167-171 | the room starts with no messages and no points, and satisfies the invariant |
| `Session.EnsureUserKeepsScores` | streamlit_app.py:177-178 | the user's entry is created at 0 only when absent; an existing score, the other entries and the messages are unchanged |
| `Session.PostBlankIsNoOp` | streamlit_app.py:222-223 | a post whose input is all whitespace (or empty) leaves the messages and the points unchanged |
| `Session.PostAppendsEscaped` | streamlit_app.py:223-229 | an accepted post appends exactly one message, the poster with the escaped input and the time, after the unchanged earlier messages; its text decodes back to the input |
| `Session.PostAwardsPoints` | streamlit_app.py:232 | an accepted post raises the poster's score by exactly 10 and leaves every other entry and the set of users unchanged |
| `Session.PostKeepsScores` | streamlit_app.py:232 | a post, accepted or not, removes no entry and lowers no score |
| `Session.RunKeepsScores` | streamlit_app.py:232 | no step of the script, and no whole run, removes an entry or lowers a score |
| `Session.EnsureUserPreservesValid` | streamlit_app.py:177-178 | creating an entry keeps the invariant: scores are non-negative multiples of 10, and every stored message has an author with an entry and text with no `<`, `>`, `"` or `'` |
| `Session.SweepPreservesValid` | streamlit_app.py:183 | the sweep keeps the invariant |
| `Session.PostPreservesValid` | streamlit_app.py:223-232 | a post keeps the invariant, so no stored message text contains `<`, `>`, `"` or `'` |
| `Session.RunPreservesValid` | streamlit_app.py:177-232 | a whole run of the script keeps the invariant |
| `Session.RunMessages` | streamlit_app.py:212-229 | after a run, the messages are the sweep's survivors followed by the new message if and only if the run was an accepted post |
| `Session.ReplayHistory` | streamlit_app.py:212-229 | after any series of runs, every stored message was already stored at the start or is the escaped input, name and clock reading of one of the accepted posts; the log is never edited |
| `Session.ReplayStoresEscaped` | streamlit_app.py:224-229 | from the empty room, every stored message is the one an accepted post appended, and its text is in escaped form (`Escape` of its own decoding) |
| `Session.RunScore` | streamlit_app.py:222-232 | one run adds exactly 10 to its user's score when it is an accepted post and changes no score otherwise |
| `Session.ReplayScore` | streamlit_app.py:232 | after any series of runs, each user's score has grown by exactly 10 per accepted post of theirs |
| `Session.FreshUserScore` | streamlit_app.py:177-232 | a user starting with no entry or a fresh 0 entry holds 10·k points after k accepted posts |
| `Chat.ChatRoom.constructor` | streamlit_app.py:167-171 | the message list and the points dictionary start empty |
| `Chat.ChatRoom.EnsureUser` | streamlit_app.py:177-178 | adds an entry of 0 only if the user has none; the messages are untouched |
| `Chat.ChatRoom.Sweep` | streamlit_app.py:181-183 | rebinds the list to the sweep's result, a subsequence of the old list; the points are untouched |
| `Chat.ChatRoom.Post` | streamlit_app.py:222-232 | sends if and only if the input is not blank after `strip()`; then it appends the escaped message and adds 10 to the poster's score, and otherwise nothing changes |
| `Chat.ChatRoom.Visit` | streamlit_app.py:174-232 | one run of the script (entry, sweep, optional send) ends in the state of `Session.Run`, keeps the invariant, and reports whether a message was sent |

## Left out

- The CSS strings and the light/dark theme switch (lines 11-164): presentation only.
- The widgets: sidebar name input, text box, Send button, `st.markdown` calls, clearing of the text box (lines 174, 219, 222, 235, 238-239). The user name, the input text and whether Send was pressed are plain arguments.
- `display_chat` (lines 190-202) and the points shown in the sidebar (line 209): rendering of HTML and `strftime` output, with no state change.
- `datetime.now()` (lines 182, 228) and the `st_autorefresh` polling (line 242): the clock is passed in as an integer count of microseconds, and the refresh cadence belongs to the page.
- Concurrency: the script has none, and `st.session_state` is one dictionary per browser session, so the room is modelled as one sequential object.
- The whitespace test of `strip()` covers the characters `str.isspace` accepts (U+0009-U+000D, U+001C-U+0020, U+0085, U+00A0, U+1680, U+2000-U+200A, U+2028, U+2029, U+202F, U+205F, U+3000) as a fixed list, not derived from Unicode tables.
- The user name is not escaped (line 226) and `display_chat` inserts it into HTML as is (lines 197, 199). Rendering is not modelled, so the model states no property of stored names beyond their points entry.
- Session.Valid: holds the weaker fact that stored text contains no `<`, `>`, `"` or `'`, not that it is in escaped form, because carrying the decode-and-re-escape round trip through the invariant makes every step's proof much costlier. The escaped form of every message stored from the empty room is stated over whole sessions by `Session.ReplayStoresEscaped` instead.
- Python's `html.escape` is modelled from its documented behaviour; its implementation is in the standard library, outside this repository.
- Session.Post and Chat.ChatRoom.Post: require the poster to have a points entry. Line 232's `+= 10` would raise `KeyError` for an absent name, after the append at 225. Every script run creates the entry at lines 177-178 first, so `Session.Run` and `Chat.ChatRoom.Visit` take no such precondition.
- A score query with a default of 0 for unknown users is not in the code, which always reads an entry it has just ensured; `Session.Score` gives that default only to state the score lemmas.
