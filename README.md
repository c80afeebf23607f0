# AI PrivacyCheck: a verified model of the chat app's core

AI PrivacyCheck is a Streamlit chat app. Users sign up and log in against a
table of password digests. They then hold named chat sessions with a language
model that acts as a privacy advisor. Each assistant reply is scanned for a
`**Risk Score:** <n>` line and a `**Privacy Summary:**` block. The score is
drawn as a coloured meter and the summary as a list of recommendations.

This project models the logic of `app.py`, in five modules:

- `Text` (text.dfy): the primitives the two regular expressions rely on.
  These are the ASCII `\d`, `str.strip()` over ASCII whitespace, leftmost
  literal search, the greedy digit run, and `int()` on it.
- `Annotation` (annotation.dfy): both regex searches written as scanning
  functions, with lemmas about replies in the layout the prompt asks for.
- `Meter` (meter.dfy): the clamp and band arithmetic of `show_meter`.
- `Sessions` (sessions.dfy): the `chat_sessions` dict as a value.
  - It keeps its key order (Python dicts remember insertion order), so log-in
    can pick the first key.
  - It models `d[k] = v`, `del d[k]` and `d[new] = d.pop(k)`.
- `PrivacyCheck` (app.dfy): the class `AppState`. It holds `st.session_state`
  and the user table. Each method is what one button press or one submitted
  input does to that state.

Each button press or submitted input is one method call on `AppState`.
One page run can make several such calls. While an image stays in the
uploader, every run repeats `ScreenshotTurn` after that run's sidebar step
and before its chat turn (app.py:149-172). `UploadKeptAcrossRuns` shows
such a sequence. Several outside parts are parameters of the methods that
use them:
- `hash_password` is a function `hash`;
- `chat_with_ai` is a function `ai` from transcript to reply;
- `load_chat_history` is a function `load` from user name to table.

What the code does, and the model with it:
- No operation raises a duplicate-session or not-found error. A new session,
  a screenshot session or a rename all silently replace a session already
  under that name.
- Sign-up does not refuse an empty user name.
- Renaming takes effect only while that session's rename box is open (`show_actions == key`, app.py:132).

## Model

| member | source | states |
|---|---|---|
| Text.Strip | app.py:164 | `s.strip()` is a slice of `s` with only whitespace outside it and no whitespace at either end |
| Text.StripUnique | app.py:164 | any non-empty slice with those properties is the stripped text, so the contract of `Strip` determines it |
| Text.TrimEndOfSuffix | app.py:164 | the trailing half of `strip()`: on the text from a non-space start, trimming the end leaves exactly the slice that has no trailing space and is followed only by whitespace |
| Text.StripTrimmed | app.py:203 | text with no whitespace at either end is left unchanged by `strip()` |
| Text.StripIdempotent | app.py:203 | stripping twice is stripping once |
| Text.IndexOf | app.py:161 | a search for a literal pattern returns the leftmost occurrence at or after the start, or nothing when there is none |
| Text.AbsentChar | app.py:200 | a pattern cannot occur in text that lacks one of its characters |
| Text.DigitRun | app.py:157 | the greedy `(\d+)` group: a run of digits that ends at the end of the text or at a non-digit |
| Text.DigitRunAt | app.py:157 | the captured digit run is exactly the stretch of digits from its start to the first non-digit or the end of the text |
| Text.DigitRunOf | app.py:197 | a digit string followed by the end or a non-digit is exactly the run captured at its start |
| Text.Digits | app.py:159 | `str(n)` is a non-empty digit string with no leading zero unless it is `0` |
| Text.ParseNat | app.py:159 | `int()` of a digit string is below `10^len` and ends in the value of the last digit; `ParseDigits` and `ParseLeadingZero` relate it to `str()` and to leading zeros |
| Text.ParseDigits | app.py:159 | `int(str(n)) == n` |
| Text.ParseLeadingZero | app.py:180 | `int()` ignores a leading zero |
| Annotation.ScoreIndex | app.py:157 | the leftmost index where the marker is followed by a digit; a marker with no digit after it is skipped |
| Annotation.ExtractScore | app.py:157-159 | no score exactly when no marker is followed by a digit; otherwise the number read from the maximal digit run after the leftmost such marker |
| Annotation.ExtractSummary | app.py:161-164 | no summary exactly when `**Privacy Summary:**` plus a newline never occurs; otherwise the stripped text after the leftmost occurrence, to the end of the reply |
| Annotation.Annotate | app.py:197-203 | the two extractions side by side, each absent exactly when its own pattern does not match |
| Annotation.ScoreAfter | app.py:197-199 | a score line `str(n)` after text that carries no score is read back as `n` |
| Annotation.SummaryAfter | app.py:200-203 | a summary block after text with no summary marker yields its stripped body, whatever the body contains |
| Annotation.MarkerOverlap | app.py:161 | an occurrence of the summary marker cannot start before a real marker and run into it, since it would end on a character that is not its line feed |
| Annotation.AnnotateFormatted | app.py:197-203 | a reply in the prompt's layout is annotated with its own score and its stripped summary |
| Annotation.PromptSummaryLineMissed | ai_engine.py:32 | a reply that copies the prompt's summary line, which has a space before its newline, gets no summary when no other summary marker occurs before or after it, whatever lines its body has |
| Annotation.PromptLineOverlap | ai_engine.py:32 | no occurrence of the summary marker overlaps the prompt's summary line: the space stands where the marker needs its line feed |
| Annotation.PromptLayoutMissed | ai_engine.py:30-34 | a reply copying the prompt's layout with the two-line tip list shows no recommendations |
| Annotation.ExampleScoreAndSummary | app.py:157-164 | `"**Risk Score:** 85\n\n**Privacy Summary:**\n- A\n- B"` shows 85 and `- A\n- B` |
| Annotation.ExampleScore | app.py:157-159 | the example reply's score is 85 |
| Annotation.ExampleSummary | app.py:161-164 | the example reply's summary is `- A\n- B` |
| Annotation.ExampleNoMarkers | app.py:197-203 | a reply with neither marker shows neither a meter nor recommendations |
| Meter.Clamp | app.py:51 | `min(max(score, 0), 100)` lies in 0..100, equals an in-range score, and is 0 below the range and 100 above it |
| Meter.ShowMeter | app.py:50-60 | the bar is in 0..100 and equals an in-range score; the band is Safe exactly below 40, Moderate Risk exactly from 40 to below 70, and Dangerous exactly from 70 |
| Meter.ShowMeterMonotonic | app.py:51-60 | a higher score never gives a shorter bar or a safer band |
| Sessions.Erase | app.py:127 | the key order after `del d[k]` or `d.pop(k)` never grows; its meaning is carried by `EraseMembers` and `EraseAt` |
| Sessions.EraseMembers | app.py:127 | after `del d[k]` the keys are the old keys without `k` |
| Sessions.EraseAbsent | app.py:135 | erasing a key that is not there leaves the order unchanged |
| Sessions.EraseDistinct | app.py:127 | removing a key keeps the key order free of repeats |
| Sessions.EraseAt | app.py:127 | a key is cut out at its one position; the keys before and after it keep their order |
| Sessions.EraseLast | app.py:135 | removing the key that was just appended restores the previous order |
| Sessions.Assign | app.py:169 | `d[k] = v` keeps the dict well formed and binds `k` to `v`; a new key goes last and an existing key keeps its place |
| Sessions.Remove | app.py:127 | `del d[k]` removes exactly `k`, keeps every other transcript, drops one entry and keeps the order of the rest |
| Sessions.RemoveValid | app.py:127 | the dict after `del d[k]` is well formed and has one entry fewer |
| Sessions.Rename | app.py:135 | `d[new] = d.pop(k)` moves `k`'s transcript to `new` and removes `k`; a fresh `new` goes last, while an existing `new` keeps its place and loses its transcript |
| Sessions.RenameOntoExisting | app.py:135 | renaming onto another existing session leaves one session fewer, and nothing reports it |
| Sessions.RenameBack | app.py:135 | renaming to a fresh name and back restores every transcript and moves the session to the end |
| Sessions.RenameBackChats | app.py:135 | renaming there and back restores every transcript |
| Sessions.MapRenameBack | app.py:135 | the map half of renaming there and back |
| Sessions.RenameBackOrder | app.py:135 | renaming there and back moves the session to the end of the order |
| PrivacyCheck.SessionName | app.py:184 | the input unchanged up to 20 characters, else its first 20 characters and `...` (23 in all); empty exactly when the input is empty |
| PrivacyCheck.SessionNameCollides | app.py:184 | two long inputs that agree on their first 20 characters name the same session |
| PrivacyCheck.ScreenshotReplyAnnotation | app.py:155-164 | the canned screenshot reply shows a score of 72 and its summary sentence |
| PrivacyCheck.ScreenshotScore | app.py:157-160 | the canned reply's score is 72 |
| PrivacyCheck.ScreenshotSummaryText | app.py:161-164 | the canned reply's summary is its summary sentence |
| PrivacyCheck.ScreenshotSummaryTrimmed | app.py:164 | the summary sentence has no whitespace to strip |
| PrivacyCheck.AppState.constructor | app.py:16-26 | the initial state: logged out, no user name, no sessions, no current session, no open rename box |
| PrivacyCheck.AppState.Signup | app.py:80-83 | an account is created exactly when the name is new, by binding it to the digest of the password; otherwise the user table is unchanged |
| PrivacyCheck.AppState.Login | app.py:93-98 | success exactly when the name is known and its digest matches; on success the user's sessions are loaded and the first one becomes current; on failure nothing changes |
| PrivacyCheck.AppState.Logout | app.py:109-112 | back to logged out with no user name, no sessions and no current session |
| PrivacyCheck.AppState.Select | app.py:120-121 | the chosen session becomes current |
| PrivacyCheck.AppState.OpenRename | app.py:123-124 | the chosen session's rename box opens |
| PrivacyCheck.AppState.DeleteSession | app.py:127-130 | exactly the key goes, every other transcript stays, and the current session is cleared only when it was the deleted one |
| PrivacyCheck.AppState.RenameSession | app.py:132-138 | with the box open, a non-empty name other than the key renames the session, makes it current and closes the box; anything else changes nothing |
| PrivacyCheck.AppState.ApplyRename | app.py:135-137 | `d[new] = d.pop(key)` on the sessions keeps the state well formed, makes the new name current and closes the rename box |
| PrivacyCheck.AppState.NewChat | app.py:141-142 | no session is current |
| PrivacyCheck.AppState.StartIfNone | app.py:183-186 | with no current session, the name becomes current and is bound to an empty transcript, replacing any session under it; otherwise nothing changes |
| PrivacyCheck.AppState.AppendToCurrent | app.py:188-189 | one message is appended to the current transcript and nothing else changes |
| PrivacyCheck.AppState.ChatTurn | app.py:182-194 | an empty input does nothing and returns no reply; any other input is a `Converse` turn |
| PrivacyCheck.AppState.Converse | app.py:183-194 | the current session, or a fresh one named from the input, gets the user message and then the model's reply to the transcript so far, and no other session changes |
| PrivacyCheck.AppState.ScreenshotTurn | app.py:166-171 | the current session, or a fresh `Screenshot Analysis`, gets the fixed user message and the canned reply, and no other session changes |
| PrivacyCheck.SignupThenLogin | app.py:80-98 | a new account logs in with its own password and not with a password whose digest differs |
| PrivacyCheck.HelloReplyAnnotation | app.py:197-203 | the first-chat reply shows a score of 10 and the summary `- tip` |
| PrivacyCheck.HelloReplyMarkers | app.py:197-203 | neither marker occurs early in the first-chat reply |
| PrivacyCheck.TipTrimmed | app.py:203 | the first-chat summary has no whitespace to strip |
| PrivacyCheck.FirstChat | app.py:182-203 | sign up, log in with no stored sessions and send `hello`: session `hello` holds the message and the reply, and the reply shows its score and summary |
| PrivacyCheck.UploadKeptAcrossRuns | app.py:141-172 | with an image kept in the uploader, New Chat then the screenshot step starts `Screenshot Analysis` over with the canned pair, and the next run appends the pair again |
| PrivacyCheck.NewChatReplacesSession | app.py:141-142 | after New Chat, an input whose session name is already taken starts that session over, and its earlier transcript is gone |

## Left out

- Page rendering: Streamlit widgets, the sidebar loop, the `components.html`
  markup of the meter (app.py:62-72), chat bubbles and `st.rerun`. Each
  button or input is one method of `AppState`. The band's label and colour
  are kept as `Band.Label` and `Band.Color`.
- The transcript display loop (app.py:174-180) only draws. It applies the
  same score search, which is `Annotation.ExtractScore`.
- File I/O and JSON: `load_chat_history` is the parameter `load`. The model
  assumes `load` returns a well-formed dict, as any parsed JSON object is.
  The user table is given to the constructor, and the saves after each step
  (`save_chat_history`, the `users.json` write) are not modelled.
- SHA-256: `hash_password` is the parameter `hash`, so `verify_password` is
  digest equality.
- `chat_with_ai` in ai_engine.py is the parameter `ai`. It makes a network
  call, and it turns failures into an error string. Its prompt template is
  used only for its summary line (`Annotation.PromptSummaryLine`).
- utils.py is not part of this model, because app.py does not use it.
- Python's Unicode `\d` and `str.isspace()` are modelled over ASCII only:
  the digits `0`-`9`, and whitespace codes 9-13 and 28-32.
- `show_actions` is left as it was by delete and log-out, and the model does
  the same. The rename box's text field keeps no state beyond the name it
  submits.
- Page-run scheduling: while an image is uploaded, one page run is the
  sidebar step, then `ScreenshotTurn`, then any chat turn. The model offers
  the steps as separate methods and does not force `ScreenshotTurn` into
  every run; `UploadKeptAcrossRuns` strings one such sequence together.
- Annotation.ExtractScore: returns the number however many digits follow the
  marker. Recent Python releases (3.11 and later, and the 3.8.14, 3.9.14 and
  3.10.7 patch releases) make `int()` raise `ValueError` on more than 4300
  digits. The page run then fails at app.py:199, after the reply was appended
  and before it is saved, and again at app.py:180 whenever the session is
  shown. The same limit applies to `str(n)` in `Text.ParseDigits` and
  `Text.Digits`.
- The image upload carries no data the app uses: the screenshot turn always
  records the same canned reply.
