# Chat client core: code fences, message segments, chat collection, message box

A Dafny model of the logic inside a small React chat client. The client talks to a
code-generating assistant. The model covers four pieces.

- **Code-block formatting** (`formatCodeBlocks`). Every non-greedy
  `` ```…``` `` block in a text is rewritten to `` ```groovy\n<trimmed inner text>\n``` ``.
  Everything else is copied verbatim.
- **Message segmentation** (`renderContent`). The text of a message is split around the
  same blocks into prose and code parts. Each code part yields a body and a language
  label, which defaults to `groovy`. A message that is still loading shows a typing
  indicator instead.
- **The chat collection** (`ChatInterface`). These are pure transitions over the state
  (chats, active chat id, global loading flag):
  - loading the stored history, with its fallback sample chat;
  - the save guard;
  - the lookup of the current chat;
  - the two halves of a send (guard + append; then answer or failure, then clearing the
    flag);
  - creating a chat;
  - selecting a chat;
  - the message box wired to the send handler.
- **The message box** (`ChatInput`). The submit rule, the Enter/Shift+Enter rule and the
  send button's disabled rule.

Modules:

| file | module |
|---|---|
| `options.dfy` | `Options`, the optional value |
| `strings.dfy` | `Strings`, holding the JavaScript `trim` whitespace set, `\w`, `trim`, `startsWith`/`endsWith` and concatenation |
| `fence_scan.dfy` | `FenceScan`, the one scan for `` /```[\s\S]*?```/g `` |
| `code_formatter.dfy` | `CodeFormatter` |
| `chat_message.dfy` | `ChatMessage` |
| `chat_input.dfy` | `ChatInput` |
| `chat_interface.dfy` | `ChatInterface` |

The regular expression is modelled once, as a scan:
- A match starts at the first fence at or after the cursor.
- It ends at the first fence at or after its start + 3.
- When no such closing fence exists, there are no further matches.

`String.prototype.split` with a capturing group and `String.prototype.replace` with a
callback are both defined on that scan. Their even parts are the gaps and their odd parts
are the matches.

Characters are Dafny `char`s, i.e. Unicode scalar values, where JavaScript uses UTF-16
code units. The characters that decide anything are backticks, word characters, newlines
and the `trim` whitespace set. That set holds non-ASCII characters too (U+00A0, U+1680,
U+2000 to U+200A, U+2028, U+2029, U+202F, U+205F, U+3000, U+FEFF), but each of them is a
single UTF-16 code unit. Characters outside the Basic Multilingual Plane (two code units
in JavaScript, one `char` here) decide nothing and are only copied whole, so every result
read as text is the same.

The send handler captures the active chat id when it is called. Its success and failure
steps edit the chat with that id, whatever chat is active by then. `FinishSend` therefore
takes the captured id as a parameter, and lemmas follow a send interleaved with creating
or selecting another chat.

Behaviour of the code worth knowing:
- `formatCodeBlocks` strips only the bare fences, so a declared language word stays as
  the first line of the body.
- As a consequence, formatting is not idempotent (`CodeFormatter.FormatNotIdempotent`).
- The renderer shows the declared language word, not a forced canonical tag.
- There is no noise-prefix stripping and no title derivation.
- The loading flag is one global flag, not one per chat.
- The success step does not refresh the chat's timestamp.
- The history is saved after the first step of a send, so a history saved while a reply
  is pending reloads with the loading placeholder among its messages; only the loading
  flag starts off.

## Model

| member | source | states |
|---|---|---|
| FenceScan.FindFence | src/utils/codeFormatter.ts:4 | the position found is a fence at or after the cursor with no fence before it; none is found exactly when no fence follows the cursor |
| FenceScan.NextMatch | src/utils/codeFormatter.ts:4 | a match opens at the first fence after the cursor and closes at the first fence at least three characters later (non-greedy, at least six characters long); there is no match exactly when the text holds no such fence pair |
| FenceScan.Spans | src/utils/codeFormatter.ts:4 | the global match list is a chain of leftmost, non-overlapping, non-greedy matches, each starting at or after the end of the previous one, and no fence pair remains after the last |
| FenceScan.ScanAt | src/utils/codeFormatter.ts:4 | the i-th match of the global list is the leftmost non-greedy match from the end of the previous one |
| FenceScan.SplitFrom | src/components/ChatMessage.tsx:22 | splitting with the capture group gives 2k+1 parts for k matches, and the parts joined in order reproduce the text |
| FenceScan.Split | src/components/ChatMessage.tsx:22 | on the whole text, the parts count 2k+1 and concatenate back to the input exactly |
| FenceScan.SplitFromParts | src/components/ChatMessage.tsx:22 | the odd parts are exactly the matched texts, the even parts exactly the gaps before each match (possibly empty) and the rest after the last match |
| FenceScan.Replace | src/utils/codeFormatter.ts:6 | a text with no complete fence pair comes back unchanged |
| FenceScan.ReplaceIsSplice | src/utils/codeFormatter.ts:6 | replacing with a callback equals splitting, applying the callback to each matched part once, and joining the gaps unchanged and in order |
| FenceScan.MatchIsBlock | src/utils/codeFormatter.ts:4 | every match opens and closes with a fence and holds no fence between them |
| FenceScan.MatchedPartsAreBlocks | src/components/ChatMessage.tsx:22 | every odd part of the split starts and ends with a fence, with fence-free text between |
| FenceScan.SingleBlockScan | src/components/ChatMessage.tsx:22 | a text that is one fenced block with a word label and a fence-free body is one match covering the whole text, split into an empty gap, the block and an empty gap |
| FenceScan.SingleBlockReplace | src/utils/codeFormatter.ts:6 | replacing in such a text applies the callback once to the whole text |
| Strings.Trim | src/utils/codeFormatter.ts:11 | the result has no trim character at either end and is no longer than the input |
| Strings.TrimPeel | src/utils/codeFormatter.ts:11 | trimming whitespace, then a trimmed core, then whitespace gives back exactly the core |
| Strings.TrimEmptyIffAllSpace | src/components/ChatInput.tsx:16 | the trimmed text is empty exactly when every character is a trim character |
| CodeFormatter.StripFences | src/utils/codeFormatter.ts:8 | on a match, exactly one leading and one trailing fence are removed; text with neither fence is untouched |
| CodeFormatter.RewriteBlock | src/utils/codeFormatter.ts:11 | every rewritten block starts with the fence, `groovy` and a newline, ends with a newline and the fence, and holds a trimmed body |
| CodeFormatter.FormatCodeBlocks | src/utils/codeFormatter.ts:2-13 | text with no complete fence pair (e.g. a single unterminated fence) is returned unchanged |
| CodeFormatter.RewriteMatchedBlock | src/utils/codeFormatter.ts:8-11 | a match is re-emitted as the canonical block whose body is the match without its two fences, trimmed |
| CodeFormatter.FormatLayout | src/utils/codeFormatter.ts:6-12 | the output is the gaps between matches copied verbatim and in order, with one rewritten block per match, each built from that match's fence-free inner text, trimmed |
| CodeFormatter.RewriteFencedBlock | src/utils/codeFormatter.ts:8-11 | a block with a language label is re-emitted with the label, its newline and the body all inside the trimmed body |
| CodeFormatter.DeclaredLanguageKept | src/utils/codeFormatter.ts:8 | formatting a block labelled with a word keeps that word as the first line of the new body under the `groovy` label |
| CodeFormatter.FormatNotIdempotent | src/utils/codeFormatter.ts:11 | formatting a canonical `groovy` block again changes it: the old label becomes a body line |
| CodeFormatter.FormatTwiceDiffers | src/utils/codeFormatter.ts:2-13 | for any single labelled block, a second formatting pass differs from the first |
| ChatMessage.LeadingWord | src/components/ChatMessage.tsx:27 | the longest prefix of word characters: all word characters, and the next character is not one |
| ChatMessage.StripOpening | src/components/ChatMessage.tsx:27 | removing the opening yields a suffix, at least three characters shorter when the part starts with a fence and the whole part otherwise |
| ChatMessage.StripClosing | src/components/ChatMessage.tsx:27 | removing the closing yields a prefix three or four characters shorter when the text ends with a fence, and the whole text otherwise |
| ChatMessage.OpeningOf | src/components/ChatMessage.tsx:27-28 | after a fence, a word and an optional newline, the body starts right after them and the language is the word, or `groovy` when the word is empty |
| ChatMessage.ClosingOf | src/components/ChatMessage.tsx:27 | at most one newline before the closing fence is removed together with it |
| ChatMessage.Language | src/components/ChatMessage.tsx:28 | the language is the non-empty maximal word run right after the opening fence, otherwise `groovy` |
| ChatMessage.CodeBodyOfBlock | src/components/ChatMessage.tsx:27-28 | a part made of fence, word, optional newline, body, optional newline and fence renders as code with exactly that body and language |
| ChatMessage.RenderContent | src/components/ChatMessage.tsx:20-51 | the corrected classification: one segment per split part, code (label and body of the part) exactly at the matched (odd) parts and the part itself as prose elsewhere |
| ChatMessage.RenderContentAsWritten | src/components/ChatMessage.tsx:24-50 | one segment per split part: the part's label and body as code when the part starts and ends with a fence, the part itself as prose otherwise |
| ChatMessage.IsCodePart | src/components/ChatMessage.tsx:25 | a part counts as code exactly when a fence sits at its start and a fence at its end (the two may overlap) |
| ChatMessage.CodeBody | src/components/ChatMessage.tsx:27 | the code shown is a contiguous piece of the part after its opening, at least the opening fence shorter when the part starts with one; a part with neither fence is shown whole |
| ChatMessage.RenderMessage | src/components/ChatMessage.tsx:64-75 | the bubble built on the corrected classification: the typing indicator exactly when the message is loading, so a loading message is never segmented; otherwise one segment per part |
| ChatMessage.RenderMessageAsWritten | src/components/ChatMessage.tsx:64-75 | the bubble as the source builds it, with `startsWith`/`endsWith` classification: the typing indicator exactly when loading, otherwise one segment per part |
| ChatMessage.RenderingsDifferOnlyAtTail | src/components/ChatMessage.tsx:22-25 | the two renderings of a text differ only when its last part passes the fence test and is 3 to 5 characters long |
| ChatMessage.BubblesAgreeExceptShortTail | src/components/ChatMessage.tsx:64-75 | the source's bubble and the corrected bubble agree on typing, segment count and every segment but the last, and differ only for a short fenced tail |
| ChatMessage.LoneFenceBubble | src/components/ChatMessage.tsx:25 | a message holding only a fence is shown by the source as an empty `groovy` code block and by the corrected bubble as prose |
| ChatMessage.RenderFencedBlock | src/components/ChatMessage.tsx:22-28 | a message that is one fenced block renders as an empty prose, the code with its label (or `groovy`) and body, and an empty prose |
| ChatMessage.UnmatchedIsProse | src/components/ChatMessage.tsx:22 | text with no complete fence pair splits into the single part equal to the text and renders as one prose segment |
| ChatMessage.GapNotCode | src/components/ChatMessage.tsx:25 | the gap before a match never starts with a fence |
| ChatMessage.OddPartIsCode | src/components/ChatMessage.tsx:25 | every matched part passes the starts-and-ends-with-fence test |
| ChatMessage.EvenPartIsNotCode | src/components/ChatMessage.tsx:25 | every gap before a match fails that test |
| ChatMessage.TailCodeOnlyWhenShort | src/components/ChatMessage.tsx:25 | text after the last match passes the test only when it is 3 to 5 characters long |
| ChatMessage.LastPartCodeOnlyWhenShort | src/components/ChatMessage.tsx:22-25 | the last split part is classified as code only when it is 3 to 5 characters long |
| ChatMessage.ClassAgrees | src/components/ChatMessage.tsx:25 | before the last part, the test classifies a part as code exactly when it is a match |
| ChatMessage.AsWrittenAgreesExceptShortTail | src/components/ChatMessage.tsx:24-50 | the two renderers agree on every segment except possibly the last, and differ there only for a 3-to-5-character tail that passes the test |
| ChatMessage.LoneFenceShownAsCode | src/components/ChatMessage.tsx:25 | the message consisting of one fence has no fence pair, yet renders as an empty `groovy` code block; the corrected renderer shows it as prose |
| ChatInput.HandleSubmit | src/components/ChatInput.tsx:14-20 | a text is sent exactly when the box is enabled and the draft is not all whitespace; what is sent is non-empty, trimmed and the draft minus surrounding whitespace; the box is cleared after a send and untouched otherwise |
| ChatInput.HandleKeyDown | src/components/ChatInput.tsx:22-27 | Enter without Shift submits exactly as the submit handler does: the trimmed draft is sent and the box cleared when enabled and not blank, otherwise nothing is sent and the draft stays; every other key, Shift+Enter included, does not submit |
| ChatInput.SendButtonDisabled | src/components/ChatInput.tsx:55 | the button is disabled exactly when the box is disabled or the draft is all whitespace |
| ChatInput.ButtonEnabledIffSubmitSends | src/components/ChatInput.tsx:55 | the button is enabled exactly when clicking it or pressing Enter would send |
| ChatInput.SentIsTrim | src/components/ChatInput.tsx:17 | the text sent is the trimmed draft, never the raw draft |
| ChatInput.NoDoubleSend | src/components/ChatInput.tsx:16-18 | submitting again right after a send sends nothing, because the box was cleared |
| ChatInterface.Stamp | src/components/ChatInterface.tsx:142 | a clock reading's id is a non-empty string of decimal digits |
| ChatInterface.StampValue | src/components/ChatInterface.tsx:142 | the digits read back as the clock reading |
| ChatInterface.StampInjective | src/components/ChatInterface.tsx:213 | two ids made from clock readings are equal exactly when the readings are |
| ChatInterface.UserMessage | src/components/ChatInterface.tsx:141-146 | the user's message carries the sent content, is not loading and has a clock-reading id |
| ChatInterface.LoadingMessage | src/components/ChatInterface.tsx:148-154 | the placeholder is an empty, loading assistant message whose id is not a clock-reading id |
| ChatInterface.AssistantMessage | src/components/ChatInterface.tsx:173-178 | the answer is an assistant message carrying the answer text, not loading, with a clock-reading id |
| ChatInterface.LoadingIdIsNoStamp | src/components/ChatInterface.tsx:149 | a placeholder's id never equals an id made from a clock reading |
| ChatInterface.WithoutPlaceholders | src/components/ChatInterface.tsx:186 | removing loading messages keeps exactly the non-loading ones: nothing loading remains, nothing new appears, and no non-loading message is lost |
| ChatInterface.WithoutPlaceholdersAppend | src/components/ChatInterface.tsx:201 | removing loading messages from a concatenation removes them from each half, order kept |
| ChatInterface.WithoutPlaceholdersKeeps | src/components/ChatInterface.tsx:201 | a list without loading messages is left as it is |
| ChatInterface.FindIndex | src/components/ChatInterface.tsx:118 | the first chat whose id matches, or none exactly when no chat has the id |
| ChatInterface.FindChat | src/components/ChatInterface.tsx:117-119 | the chat found is the first chat of the list with the id, no earlier chat having it; none is found exactly when no chat has it |
| ChatInterface.CurrentChat | src/components/ChatInterface.tsx:117-119 | the current chat is the first chat of the list with the active id, no earlier chat having it; there is none exactly when no chat has the active id |
| ChatInterface.FindIndexSameIds | src/components/ChatInterface.tsx:118 | lists with the same ids in the same order give the same lookup result |
| ChatInterface.ApplyEdit | src/components/ChatInterface.tsx:157-205 | the edits of a send never change a chat's id or title |
| ChatInterface.UpdateChat | src/components/ChatInterface.tsx:158-166 | mapping an edit over the list keeps its length and every id, turns every chat with the id into the edited chat, and leaves every chat with another id unchanged |
| ChatInterface.FindAfterUpdate | src/components/ChatInterface.tsx:158-167 | after the edit, looking up the edited id finds the edited chat and any other id finds what it found before |
| ChatInterface.SampleChat | src/components/ChatInterface.tsx:56-69 | the fallback chat has id `1`, the sample title and exactly one message: the assistant's greeting, not loading |
| ChatInterface.LoadChatHistory | src/components/ChatInterface.tsx:33-96 | missing, empty or unreadable history gives exactly the sample chat, active under id `1`; readable history is taken as is, with its first chat active when there is one; the loading flag is off and the active id always resolves or the list is empty |
| ChatInterface.SaveChatHistory | src/components/ChatInterface.tsx:99-107 | something is written only when the list is non-empty, and then it is the serialized list |
| ChatInterface.SaveThenLoad | src/components/ChatInterface.tsx:36-53 | saving a non-empty list and loading it back restores the list with its first chat active |
| ChatInterface.BeginSend | src/components/ChatInterface.tsx:136-168 | the handler proceeds exactly when a chat is active and nothing is loading; it captures the active id, sets the loading flag and keeps the active chat resolvable |
| ChatInterface.Settle | src/components/ChatInterface.tsx:170-205 | the captured chat receives the answer exactly when the wait ended with one |
| ChatInterface.FinishSend | src/components/ChatInterface.tsx:170-208 | after either outcome the loading flag is off and the active id is kept; the list keeps its length and ids; chats with other ids are untouched; the captured chat has no loading message left |
| ChatInterface.SendMessage | src/components/ChatInterface.tsx:136-209 | sending is a no-op when no chat is active or a reply is pending; otherwise the flag is off again at the end and the list keeps its length |
| ChatInterface.BeginSendEdits | src/components/ChatInterface.tsx:157-168 | the first step edits the active chat and finds every other chat as before |
| ChatInterface.BeginSendAppends | src/components/ChatInterface.tsx:157-168 | the active chat gains exactly the user's message and a placeholder at its end, its last message becomes the sent text and every other chat is unchanged |
| ChatInterface.ExchangeThenSettle | src/components/ChatInterface.tsx:157-205 | after both steps a chat holds its earlier non-loading messages, the user's message and the answer if any; its last message is the answer, or the sent text on failure |
| ChatInterface.SendMessageResult | src/components/ChatInterface.tsx:136-209 | an uninterrupted send leaves the active chat with its earlier non-loading messages, the user's message, then the answer on success and nothing on failure |
| ChatInterface.FinishSendOn | src/components/ChatInterface.tsx:181-205 | the completion step applies the success or failure edit to the captured chat |
| ChatInterface.FinishSendElsewhere | src/components/ChatInterface.tsx:181-205 | the completion step leaves every chat with another id as it was |
| ChatInterface.ExchangeFiltered | src/components/ChatInterface.tsx:186 | removing loading messages after the append drops the placeholder and keeps the user's message last |
| ChatInterface.SendMessageCount | src/components/ChatInterface.tsx:181-205 | from n messages none of them loading, a send leaves n+2 on success and n+1 on failure |
| ChatInterface.FreshChat | src/components/ChatInterface.tsx:212-225 | a new chat is titled `Nova Conversa` and holds exactly one message: the assistant's greeting, not loading; the chat's id comes from the first clock reading and the greeting's id from the second |
| ChatInterface.NewChat | src/components/ChatInterface.tsx:211-229 | the new chat is prepended before the unchanged old list and becomes the current chat; the loading flag is untouched |
| ChatInterface.NewChatKeepsOthers | src/components/ChatInterface.tsx:227 | creating a chat hides no other chat: every other id finds what it found before |
| ChatInterface.SelectChat | src/components/ChatInterface.tsx:241 | selecting changes only the active id; selecting an existing id makes that chat current |
| ChatInterface.SendAroundNewChat | src/components/ChatInterface.tsx:181-211 | a send with a chat created while it waits ends with the flag off, the new chat active and one more chat |
| ChatInterface.NewChatStaysActive | src/components/ChatInterface.tsx:228 | a chat created while a reply is pending stays the current chat after the reply arrives |
| ChatInterface.AnswerReachesCapturedChat | src/components/ChatInterface.tsx:183-186 | the reply lands in the chat the message was sent from, not in the chat created meanwhile |
| ChatInterface.AnswerFollowsCapturedChat | src/components/ChatInterface.tsx:181-191 | both together: the new chat stays current and the captured chat receives the exchange |
| ChatInterface.AnswerIgnoresSwitch | src/components/ChatInterface.tsx:181-205 | after the user switches to another chat while waiting, that chat stays current and unchanged, and the outcome is applied to the chat the message was sent from |
| ChatInterface.SubmitDraft | src/components/ChatInterface.tsx:263-266 | with the box disabled by the loading flag, a submit while loading, or of a blank draft, changes nothing; otherwise the box is cleared and the flag is off when the send completes |
| ChatInterface.SubmitAppendsTrimmed | src/components/ChatInterface.tsx:263-266 | what the box sends lands in the active chat as the trimmed draft, followed by the answer on success |

## Left out

- `src/services/apiService.ts` (HTTP calls, health check) is not part of this model.
- `simulateAssistantResponse` (random delay and random canned answer) is not modelled. Its
  result is the `Outcome` input: `Reply(text)` or `Failed`.
- Clock readings (`Date.now()`, `new Date()`) are parameters (`now`, `later`, `created`,
  `greeted`). The source reads the clock separately for each id and each timestamp. The
  model shares one reading in these places:
  - an id and the timestamp next to it;
  - the sample chat's timestamp and its greeting's timestamp;
  - in the send handler's first step, both messages and the chat's refreshed timestamp.
  Time-of-day formatting is not modelled.
- JavaScript strings holding lone surrogate code units cannot be represented as Dafny
  strings, so such inputs are not modelled.
- ChatMessage.RenderMessage: uses the corrected classification of parts, not the source's
  `startsWith`/`endsWith` test; the source's bubble is ChatMessage.RenderMessageAsWritten,
  and ChatMessage.BubblesAgreeExceptShortTail bounds where the two differ.
- `localStorage` and JSON are opaque:
  - the stored text is an `Option<string>` input, whose `None` covers both a missing key
    and a read that threw;
  - parsing together with the date conversion is a function returning `None` when it
    throws;
  - serialization together with the write is a function returning `None` when it throws.
- React plumbing is not modelled:
  - state batching and effect scheduling;
  - the save effect's run on mount;
  - scrolling and the textarea height.
  The functional `setChats` updates are modelled by applying each step to the current
  state.
- Markup only: the JSX of the message bubbles, `FeedbackModal`, `NewChatModal`, `Header`
  and `ChatSidebar`.
- Not in the code, so not modelled:
  - title derivation;
  - chat deletion;
  - inline markdown;
  - noise-prefix stripping in code blocks;
  - a per-chat single-flight rule.
- Concurrency is modelled only through explicit interleavings. Those are a chat created,
  or another chat selected, between the two halves of a send. A second send cannot start
  then, because of the global flag.

## Findings

| source | as written | input that shows it | evidently intended | confidence | as-written member | corrected member |
|---|---|---|---|---|---|---|
| src/components/ChatMessage.tsx:25 | a split part counts as code when it starts and ends with three backticks | the message "```" (or any text whose part after its last match is exactly 3 to 5 backticks) has no fence pair, yet that part passes the test and renders as a `groovy` code block (empty for "```") | only the matched parts of the split (the odd positions) are code; unmatched fences stay prose | not executed | ChatMessage.RenderContentAsWritten, shown by ChatMessage.LoneFenceShownAsCode (in a bubble: ChatMessage.RenderMessageAsWritten, ChatMessage.LoneFenceBubble) | ChatMessage.RenderContent, related by ChatMessage.AsWrittenAgreesExceptShortTail |
