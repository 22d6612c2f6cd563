# Open Notebook client logic, in Dafny

This project models the logic inside the React front end of Open Notebook, a
mobile notebook in which a user collects sources, chats with an assistant
about them and listens to audio overviews. Most of that front end is
presentation. The parts that compute something are modelled here, one Dafny
module per component:

- **The citation-aware renderer** (`CitationRenderer`). Assistant text is
  scanned for markers `[digits]` by the `exec` loop of the component,
  modelled as the method `ProcessCitations`. That method is proved equal to
  a recursive reference definition, `Render`. Lemmas about `Render` show:
  - the pieces write the message back exactly;
  - every marker becomes exactly one link;
  - text pieces are non-empty and never adjacent;
  - every link resolves to the first citation with its number, or to none.

  The link button and its preview flag are a class.
- **The simple chat screen** (`SimpleChat`). The transcript, the text box
  and the voice button are a class. Its invariant is that the roles
  alternate and a reply is pending exactly when the last question is
  unanswered. Also modelled: the simulated answer and its two citations, the
  `Ask N sources...` placeholder, and the split-based `CitationText`
  renderer.
- **The source list** (`SourceManager`): search and type filtering, adding,
  removing by id, and the list of type filters. All of them build new lists.
- **The "Add Source" sheet** (`SourceUploader`):
  - the file type from the extension;
  - the title from the file name, the link or the pasted text;
  - the stored and displayed word counts;
  - the sources each way of adding creates;
  - the sheet itself as a class whose `announced` field records every
    source passed to `onSourceAdded`.
- **The chat welcome message** (`WelcomeMessage`): ready-source counting,
  pluralisation, the distinct type descriptions and the suggested questions.
- **The first-run walkthrough and its progress dots** (`OnboardingFlow`,
  `ProgressDots`).
- **Tab routing.** `MainApp.CurrentTab` reads the tab from the last path
  segment. `BottomNavigation.TabChangePath` rewrites that segment.
  `SwitchThenRead` proves that the two round-trip.
- **The audio player** (`AudioStudio`): seek clamping, the skip buttons, the
  `m:ss` clock and the progress bar. The transport is a class.

Shared modules:
- `Types`: the entities of `frontend/src/types/index.ts`.
- `Constants`: the onboarding steps and navigation tabs of
  `frontend/src/utils/constants.ts`.
- Helpers on strings and sequences (`Strings`, `Seqs`): split and join,
  decimal digits, filtering, first-occurrence deduplication, JavaScript's
  whitespace set and `toLowerCase` on ASCII.

Timers, identifiers, timestamps, random numbers and the browser's URL parser
become parameters, or separate methods for delayed callbacks.

## Model

| member | source | states |
|---|---|---|
| CitationRenderer.DigitRunSpec | frontend/src/components/chat/CitationAwareMessageRenderer.tsx:144 | `\d+` takes the maximal run of digits: all of it digits, and the next character not one |
| CitationRenderer.MarkerAt | frontend/src/components/chat/CitationAwareMessageRenderer.tsx:144 | a marker it reports is `[`, one or more digits, `]` at that position |
| CitationRenderer.MarkerAtComplete | frontend/src/components/chat/CitationAwareMessageRenderer.tsx:144 | every marker is recognised, with its full digit count |
| CitationRenderer.FirstMarkerFrom | frontend/src/components/chat/CitationAwareMessageRenderer.tsx:149 | `exec` from `lastIndex` returns a marker at or after `lastIndex` |
| CitationRenderer.FirstMarkerLeftmost | frontend/src/components/chat/CitationAwareMessageRenderer.tsx:149 | that marker is the leftmost one; `null` means no marker starts from `lastIndex` on |
| CitationRenderer.CitationIndex | frontend/src/components/chat/CitationAwareMessageRenderer.tsx:157 | a found index is in range and its citation has the number |
| CitationRenderer.CitationIndexSpec | frontend/src/components/chat/CitationAwareMessageRenderer.tsx:157 | `find` fails iff no citation has the number, and otherwise stops at the first that has it |
| CitationRenderer.FindCitation | frontend/src/components/chat/CitationAwareMessageRenderer.tsx:157 | a found citation carries the marker's number |
| CitationRenderer.FindCitationSpec | frontend/src/components/chat/CitationAwareMessageRenderer.tsx:156-157 | a marker resolves iff some citation has its number, and then to the first such citation in list order |
| CitationRenderer.Matches | frontend/src/components/chat/CitationAwareMessageRenderer.tsx:149-168 | the successive matches are markers, each starting after the previous one ends |
| CitationRenderer.MatchesTokenize | frontend/src/components/chat/CitationAwareMessageRenderer.tsx:144-168 | the matches are the leftmost markers one after another, with no marker between or after them |
| CitationRenderer.TokenizesUnique | frontend/src/components/chat/CitationAwareMessageRenderer.tsx:144-168 | any sequence of matches with that property is the one `exec` produces |
| CitationRenderer.BuildAtMatch | frontend/src/components/chat/CitationAwareMessageRenderer.tsx:150-167 | at a match, the pieces are the pending text if any, the link, then the pieces of the rest |
| CitationRenderer.BuildAtEnd | frontend/src/components/chat/CitationAwareMessageRenderer.tsx:170-173 | after the last match, only the remaining text, if any, is added |
| CitationRenderer.ProcessCitations | frontend/src/components/chat/CitationAwareMessageRenderer.tsx:140-176 | the `while` loop over `exec` produces exactly the reference pieces `Render`, or the content itself when there are none |
| CitationRenderer.Advance | frontend/src/components/chat/CitationAwareMessageRenderer.tsx:149-168 | one turn of the loop moves `lastIndex` forward and keeps pieces-so-far plus pieces-to-come equal to `Render` |
| CitationRenderer.PushMatch | frontend/src/components/chat/CitationAwareMessageRenderer.tsx:151-165 | pushes the text since `lastIndex` when non-empty, then the link with the parsed number and its citation |
| CitationRenderer.PushRest | frontend/src/components/chat/CitationAwareMessageRenderer.tsx:171-173 | pushes the text after the last match when non-empty |
| CitationRenderer.RenderRoundTrip | frontend/src/components/chat/CitationAwareMessageRenderer.tsx:149-173 | the text pieces and each link's matched marker text, in order, reproduce the message exactly |
| CitationRenderer.RenderWellFormed | frontend/src/components/chat/CitationAwareMessageRenderer.tsx:151-173 | text pieces are non-empty and marker-free, never adjacent, and each link is its marker's value resolved by `find` |
| CitationRenderer.RenderEmptyIff | frontend/src/components/chat/CitationAwareMessageRenderer.tsx:175 | there are no pieces iff the message is empty, so only the empty message is returned unprocessed |
| CitationRenderer.RenderMarkerFree | frontend/src/components/chat/CitationAwareMessageRenderer.tsx:171-175 | a message without markers is one text piece equal to the message, or no piece when it is empty |
| CitationRenderer.MatchesCount | frontend/src/components/chat/CitationAwareMessageRenderer.tsx:149-168 | there is one match per marker counted left to right without overlap |
| CitationRenderer.RenderOneLinkPerMarker | frontend/src/components/chat/CitationAwareMessageRenderer.tsx:144-167 | the number of links equals the number of markers |
| CitationRenderer.MarkersDisjoint | frontend/src/components/chat/CitationAwareMessageRenderer.tsx:144 | two markers never overlap |
| CitationRenderer.MarkerIsMatched | frontend/src/components/chat/CitationAwareMessageRenderer.tsx:149 | every marker from `lastIndex` on is one of the matches |
| CitationRenderer.RenderLinksEveryMarker | frontend/src/components/chat/CitationAwareMessageRenderer.tsx:144-167 | every marker anywhere in the message is rendered as its link |
| CitationRenderer.AdjacentMarkers | frontend/src/components/chat/CitationAwareMessageRenderer.tsx:144-167 | `[1][2]` gives two links and no text |
| CitationRenderer.UnresolvedMarker | frontend/src/components/chat/CitationAwareMessageRenderer.tsx:156-165 | a marker with no citation is still rendered, unresolved, between its texts |
| CitationRenderer.MalformedBracketStaysText | frontend/src/components/chat/CitationAwareMessageRenderer.tsx:144 | a `[` followed by no digit, or by digits without `]`, starts no link and stays in the text |
| CitationRenderer.AriaLabel | frontend/src/components/chat/CitationAwareMessageRenderer.tsx:42-46 | the label starts with `Citation ` |
| CitationRenderer.AriaLabelReadsBack | frontend/src/components/chat/CitationAwareMessageRenderer.tsx:42-46 | the label is `Citation n: <source title>`, or `Citation n: Source not found` when unresolved |
| CitationRenderer.CitationLink.constructor | frontend/src/components/chat/CitationAwareMessageRenderer.tsx:12-13 | a new link keeps its number and citation, and its preview is closed |
| CitationRenderer.CitationLink.PreviewVisible | frontend/src/components/chat/CitationAwareMessageRenderer.tsx:75 | the preview shows only on a resolved, so enabled, link |
| CitationRenderer.CitationLink.Click | frontend/src/components/chat/CitationAwareMessageRenderer.tsx:15-20 | a click opens the preview iff the link resolved; otherwise nothing changes |
| CitationRenderer.CitationLink.KeyDown | frontend/src/components/chat/CitationAwareMessageRenderer.tsx:22-27 | Enter and Space act as a click; other keys change nothing |
| CitationRenderer.CitationLink.ClosePreview | frontend/src/components/chat/CitationAwareMessageRenderer.tsx:57 | closing hides the preview |
| SimpleChat.SendKeepsConsistent | frontend/src/components/chat/SimpleChatInterface.tsx:33-44 | a user message appended while no reply is pending keeps the roles alternating and starts the pending reply |
| SimpleChat.ReplyKeepsConsistent | frontend/src/components/chat/SimpleChatInterface.tsx:75-76 | the answer appended while a reply is pending keeps the roles alternating and ends the pending reply |
| SimpleChat.TurnCounts | frontend/src/components/chat/SimpleChatInterface.tsx:33-76 | there are as many answers as questions, or one fewer while a reply is pending |
| SimpleChat.PendingQuestionIsLast | frontend/src/components/chat/SimpleChatInterface.tsx:42-44 | while a reply is pending, the last message is the user's question |
| SimpleChat.ReplyFallbacks | frontend/src/components/chat/SimpleChatInterface.tsx:53-69 | the answer cites numbers 1 and 2 with the two canned quotes; each citation's id and title are those of the source at its position, or `source-1`/`source-2` and `First Source`/`Second Source` when that source is missing or the field is empty |
| SimpleChat.ReplyCitesBoth | frontend/src/components/chat/SimpleChatInterface.tsx:50-69 | the answer text holds `[1]` and `[2]`, and the chat's `CitationText` shows each as a button resolved to the answer's citation with that number (the citation-aware renderer would link them alike) |
| SimpleChat.MarkersAfterLead | frontend/src/components/chat/SimpleChatInterface.tsx:50 | `[1] [2]` between any texts is two markers, each shown as the button for the citation with its number |
| SimpleChat.PlaceholderStates | frontend/src/components/chat/SimpleChatInterface.tsx:96-97 | the placeholder is `Ask `, the ready-source count's digits, then ` sources...`, or ` source...` when the count is one |
| SimpleChat.PlaceholderIgnoresUnready | frontend/src/components/chat/SimpleChatInterface.tsx:96 | a source that is not ready leaves the placeholder unchanged |
| SimpleChat.ChatSession.constructor | frontend/src/components/chat/SimpleChatInterface.tsx:17-20 | the session starts empty, not loading, not recording |
| SimpleChat.ChatSession.SendMessage | frontend/src/components/chat/SimpleChatInterface.tsx:32-44 | blank input or a pending reply changes nothing; otherwise one user message with the untrimmed input is appended, the box cleared and loading set |
| SimpleChat.ChatSession.ReceiveReply | frontend/src/components/chat/SimpleChatInterface.tsx:47-77 | the timer appends exactly the simulated answer for the captured sources and clears loading; the box is untouched |
| SimpleChat.ChatSession.KeyDown | frontend/src/components/chat/SimpleChatInterface.tsx:80-85 | Enter without Shift sends under the same guard, with the same new state as the send button (the sources captured, the voice state kept); any other key changes nothing |
| SimpleChat.ChatSession.SetInput | frontend/src/components/chat/SimpleChatInterface.tsx:177 | typing replaces the box's text and nothing else |
| SimpleChat.ChatSession.StartVoiceInput | frontend/src/components/chat/SimpleChatInterface.tsx:87-89 | recording starts and one more voice timer is pending |
| SimpleChat.ChatSession.VoiceInputDone | frontend/src/components/chat/SimpleChatInterface.tsx:90-93 | the timer puts the canned question in the box and stops recording |
| SimpleChat.VoiceTranscriptSendable | frontend/src/components/chat/SimpleChatInterface.tsx:91 | the canned question is not blank, so it can be sent |
| SimpleChat.Cut | frontend/src/components/chat/SimpleChatInterface.tsx:213 | splitting around n markers gives 2n+1 pieces |
| SimpleChat.SplitRoundTrip | frontend/src/components/chat/SimpleChatInterface.tsx:213 | the split pieces join back to the content |
| SimpleChat.SplitAlternates | frontend/src/components/chat/SimpleChatInterface.tsx:213-218 | the odd-indexed pieces are exactly the whole markers, and the even-indexed ones hold no marker |
| SimpleChat.CitationText | frontend/src/components/chat/SimpleChatInterface.tsx:217 | one span per split piece |
| SimpleChat.SpanOfText | frontend/src/components/chat/SimpleChatInterface.tsx:238 | a piece without a marker is shown as its text |
| SimpleChat.SpanOfMarker | frontend/src/components/chat/SimpleChatInterface.tsx:218-221 | a whole marker is shown as the button for its value, resolved to the first citation with that number |
| SimpleChat.CitationTextSpans | frontend/src/components/chat/SimpleChatInterface.tsx:213-239 | even pieces show as text, odd pieces as buttons for their marker's value and resolved citation |
| SimpleChat.MatchCut | frontend/src/components/chat/SimpleChatInterface.tsx:213 | each match of the split pattern is kept as a piece of its own, at an odd index |
| SimpleChat.MarkerShownAsButton | frontend/src/components/chat/SimpleChatInterface.tsx:213-221 | every marker anywhere in the content is shown as the button for its value, resolved to the first citation with that number |
| SimpleChat.ButtonBehaviour | frontend/src/components/chat/SimpleChatInterface.tsx:221-232 | a click alerts iff the marker resolved, with `Citation n: <quote>`; an unresolved button is titled `Citation n` |
| SourceManager.FilteredSpec | frontend/src/components/sources/SourceManager.tsx:25-29 | the filtered list is an order-preserving subsequence; a source is kept iff its title matches the search and its type the filter, as often as it occurs |
| SourceManager.SearchIgnoresCase | frontend/src/components/sources/SourceManager.tsx:26 | the search does not depend on the case of the query |
| SourceManager.SearchCaseInsensitive | frontend/src/components/sources/SourceManager.tsx:26 | titles and queries that differ only in the case of their letters give the same result |
| SourceManager.ClearedFiltersShowAll | frontend/src/components/sources/SourceManager.tsx:26-27 | an empty query with `all` keeps every source |
| SourceManager.AddSpec | frontend/src/components/sources/SourceManager.tsx:31-35 | adding keeps the existing entries and puts the new source last, even when its id is already there |
| SourceManager.RemoveSpec | frontend/src/components/sources/SourceManager.tsx:40-44 | removing drops every source with the id and keeps the rest in order with their multiplicities |
| SourceManager.AddThenRemove | frontend/src/components/sources/SourceManager.tsx:31-44 | adding a source with a fresh id and removing that id restores the list |
| SourceManager.SourceTypes | frontend/src/components/sources/SourceManager.tsx:48 | the filter list starts with `all`, followed only by types |
| SourceManager.SourceTypesTail | frontend/src/components/sources/SourceManager.tsx:48 | after `all` come the distinct types of the sources |
| SourceManager.SourceTypesMembers | frontend/src/components/sources/SourceManager.tsx:48 | a type is offered iff some source has it |
| SourceManager.SourceTypesDistinct | frontend/src/components/sources/SourceManager.tsx:48 | no filter is offered twice |
| SourceManager.SourceTypesOrder | frontend/src/components/sources/SourceManager.tsx:48 | types are offered in the order they first occur |
| SourceManager.AddSourceTypes | frontend/src/components/sources/SourceManager.tsx:48 | adding a source of a listed type leaves the filters as they are; a new type is added at the end |
| Types.ReadySources | frontend/src/components/chat/SimpleChatInterface.tsx:96 | the ready list is no longer than the list |
| Types.ReadySourcesSpec | frontend/src/components/chat/SimpleChatInterface.tsx:96 | the ready list holds exactly the ready sources, in their order, each as often as in the list |
| Types.ReadyIgnoresUnready | frontend/src/components/chat/NotebookWelcomeMessage.tsx:15 | a source that is not ready does not change the ready list |
| Types.Kinds | frontend/src/components/sources/SourceManager.tsx:48 | one type per source |
| Types.KindsMembers | frontend/src/components/sources/SourceManager.tsx:48 | a type is listed iff some source has it |
| SourceUploader.Extension | frontend/src/components/sources/SourceUploader.tsx:196 | the extension contains no dot |
| SourceUploader.ExtensionAfterDot | frontend/src/components/sources/SourceUploader.tsx:196 | the extension is the lower-cased text after the last dot |
| SourceUploader.ExtensionWithoutDot | frontend/src/components/sources/SourceUploader.tsx:196 | a name without a dot is its own extension |
| SourceUploader.ExtensionKind | frontend/src/components/sources/SourceUploader.tsx:198-210 | `pdf` iff pdf; document iff another office or an image extension; audio iff an audio extension; text otherwise; never a link type |
| SourceUploader.FileKindByExtension | frontend/src/components/sources/SourceUploader.tsx:195-211 | a file's type depends only on the lower-cased text after its last dot |
| SourceUploader.UpperCasePdf | frontend/src/components/sources/SourceUploader.tsx:196-199 | `.PDF` is recognised as a PDF |
| SourceUploader.FileTitle | frontend/src/components/sources/SourceUploader.tsx:117 | the title is a prefix of the file name |
| SourceUploader.FileTitleDropsExtension | frontend/src/components/sources/SourceUploader.tsx:117 | a final `.ext` with ext non-empty and free of `.` and `/` is removed |
| SourceUploader.FileTitleKeepsName | frontend/src/components/sources/SourceUploader.tsx:117 | the name is kept whole when the text after its last dot is empty or contains `/` |
| SourceUploader.FileTitleWithoutDot | frontend/src/components/sources/SourceUploader.tsx:117 | a name without a dot is kept whole |
| SourceUploader.UrlKind | frontend/src/components/sources/SourceUploader.tsx:151 | a link is a video iff it contains `youtube.com` or `youtu.be`, otherwise a website |
| SourceUploader.ShortLinkIsVideo | frontend/src/components/sources/SourceUploader.tsx:151 | any text around `youtu.be` makes a video |
| SourceUploader.UrlTitle | frontend/src/components/sources/SourceUploader.tsx:213-220 | no host gives `Website Link`; a host without `www.` is the title; otherwise the title is the host with its first `www.` cut out |
| Strings.RemoveFirst | frontend/src/components/sources/SourceUploader.tsx:216 | `replace` with a plain string cuts out the leftmost occurrence and keeps everything else; without one the string is unchanged |
| SourceUploader.WwwIsDropped | frontend/src/components/sources/SourceUploader.tsx:216 | a leading `www.` is dropped |
| SourceUploader.TextTitle | frontend/src/components/sources/SourceUploader.tsx:179 | the title ends in `...` and is at most 53 characters |
| SourceUploader.TextTitleIsFirstLine | frontend/src/components/sources/SourceUploader.tsx:179 | before `...` is a prefix of the text without line breaks, cut at 50 characters or at the first line break |
| SourceUploader.StoredWordCount | frontend/src/components/sources/SourceUploader.tsx:184 | the stored count is at least one |
| SourceUploader.DisplayedWordCount | frontend/src/components/sources/SourceUploader.tsx:361 | the shown count never exceeds the stored one |
| Strings.SplitSpacesNoSpace | frontend/src/components/sources/SourceUploader.tsx:184 | no piece of `split(/\s+/)` contains whitespace |
| Strings.SplitSpacesJoin | frontend/src/components/sources/SourceUploader.tsx:184 | the pieces of `split(/\s+/)`, joined, are the text with its whitespace removed |
| SourceUploader.ShownWords | frontend/src/components/sources/SourceUploader.tsx:361 | the shown count counts non-empty, whitespace-free pieces that together spell the text without its whitespace |
| SourceUploader.WordCounts | frontend/src/components/sources/SourceUploader.tsx:184 | the stored count is the shown count plus one for leading and one for trailing whitespace |
| SourceUploader.SubmittedTextCounts | frontend/src/components/sources/SourceUploader.tsx:169-184 | for submitted text, stored ≥ shown, with equality when the text neither starts nor ends with whitespace |
| SourceUploader.RandomCount | frontend/src/components/sources/SourceUploader.tsx:134 | `floor(random * span) + base` lies in [base, base + span) |
| SourceUploader.UploadedSource | frontend/src/components/sources/SourceUploader.tsx:115-125 | an uploaded file is announced as processing, under its id, without a word count |
| SourceUploader.ProcessedSource | frontend/src/components/sources/SourceUploader.tsx:130-136 | the processed copy is ready, has a word count in [1000, 11000), and is otherwise the same source |
| SourceUploader.LinkSource | frontend/src/components/sources/SourceUploader.tsx:148-158 | a link source is ready, keeps the URL, has the link's type and title, and a word count in [500, 5500) |
| SourceUploader.TextSource | frontend/src/components/sources/SourceUploader.tsx:177-185 | a text source is ready plain text with the text, its title and its stored word count |
| SourceUploader.UploadThenProcess | frontend/src/components/sources/SourceUploader.tsx:115-136 | processing keeps id, title, type, file name and size, and changes processing to ready |
| SourceUploader.Uploads | frontend/src/components/sources/SourceUploader.tsx:102-104 | one announced source per file |
| SourceUploader.UploadsSpec | frontend/src/components/sources/SourceUploader.tsx:102-104 | each file is announced as processing, under its id, with its name's title and type |
| SourceUploader.Uploader.constructor | frontend/src/components/sources/SourceUploader.tsx:73-76 | the sheet opens on its options, idle, with empty inputs |
| SourceUploader.Uploader.SelectOption | frontend/src/components/sources/SourceUploader.tsx:82-93 | the option is selected; the file picker opens iff it is file, audio or camera |
| SourceUploader.Uploader.Back | frontend/src/components/sources/SourceUploader.tsx:286 | back returns to the options and changes nothing else |
| SourceUploader.Uploader.SetUrlInput | frontend/src/components/sources/SourceUploader.tsx:303 | typing replaces the link field |
| SourceUploader.Uploader.SetTextInput | frontend/src/components/sources/SourceUploader.tsx:355 | typing replaces the text box |
| SourceUploader.Uploader.UploadFile | frontend/src/components/sources/SourceUploader.tsx:111-127 | the file's processing source is announced |
| SourceUploader.Uploader.FinishProcessing | frontend/src/components/sources/SourceUploader.tsx:130-136 | the processed copy is announced |
| SourceUploader.Uploader.SelectFiles | frontend/src/components/sources/SourceUploader.tsx:95-109 | no files changes nothing; otherwise every file's source is announced in order and the sheet returns to its options, idle |
| SourceUploader.Uploader.SubmitUrl | frontend/src/components/sources/SourceUploader.tsx:139-166 | a blank link is ignored; otherwise its source is announced, the field cleared and the sheet returns to its options |
| SourceUploader.Uploader.SubmitText | frontend/src/components/sources/SourceUploader.tsx:168-193 | blank text is ignored; otherwise its source is announced, the box cleared and the sheet returns to its options |
| WelcomeMessage.TypeDescriptionInjective | frontend/src/components/chat/NotebookWelcomeMessage.tsx:23-32 | different types get different descriptions |
| WelcomeMessage.TypeDescriptions | frontend/src/components/chat/NotebookWelcomeMessage.tsx:22-32 | one description per distinct ready type |
| WelcomeMessage.Noun | frontend/src/components/chat/NotebookWelcomeMessage.tsx:34 | ` source`, followed by `s` iff the count is not one |
| WelcomeMessage.TypeList | frontend/src/components/chat/NotebookWelcomeMessage.tsx:32-34 | the type list part starts with a space, so it never adds an `s` to the noun |
| WelcomeMessage.NothingReady | frontend/src/components/chat/NotebookWelcomeMessage.tsx:18-46 | the upload prompt, and no suggestions, iff no source is ready; otherwise the four suggestions |
| WelcomeMessage.CountPhrase | frontend/src/components/chat/NotebookWelcomeMessage.tsx:34 | the digits after the opening read back as the count, followed by ` source` and then `s` iff the count is not one |
| WelcomeMessage.WelcomeCounts | frontend/src/components/chat/NotebookWelcomeMessage.tsx:34 | the greeting opens with the ready count and `source`, plural iff the count is not one |
| WelcomeMessage.WelcomeListsTypes | frontend/src/components/chat/NotebookWelcomeMessage.tsx:22-34 | the greeting ends with the descriptions joined by `, ` in parentheses and the closing sentence |
| WelcomeMessage.DescriptionsMembers | frontend/src/components/chat/NotebookWelcomeMessage.tsx:22-32 | a type is described iff some ready source has it |
| WelcomeMessage.DescriptionsDistinctInOrder | frontend/src/components/chat/NotebookWelcomeMessage.tsx:22-32 | each description appears once, in first-seen order of its type |
| WelcomeMessage.WelcomeIgnoresUnready | frontend/src/components/chat/NotebookWelcomeMessage.tsx:15-46 | a source that is not ready changes neither the greeting nor the suggestions |
| OnboardingFlow.StepAfterNext | frontend/src/components/onboarding/OnboardingFlow.tsx:15-21 | next advances by one before the last step and stays on it |
| OnboardingFlow.StepAfterPrevious | frontend/src/components/onboarding/OnboardingFlow.tsx:23-27 | back goes down by one, and stays on the first step |
| OnboardingFlow.StepsStayInRange | frontend/src/components/onboarding/OnboardingFlow.tsx:15-27 | neither button leaves the range of steps |
| OnboardingFlow.NextAndPreviousUndo | frontend/src/components/onboarding/OnboardingFlow.tsx:15-27 | back undoes next except on the last step; next undoes back except on the first |
| OnboardingFlow.NextsStopAtLast | frontend/src/components/onboarding/OnboardingFlow.tsx:15-21 | k presses of next advance k steps, stopping at the last |
| OnboardingFlow.CompletesAfterEveryStep | frontend/src/components/onboarding/OnboardingFlow.tsx:15-21 | from the start, next completes the flow once the last step is reached and not before |
| OnboardingFlow.ScreenAt | frontend/src/components/onboarding/OnboardingFlow.tsx:60-69 | step 0 shows the welcome screen, the others a feature screen, marked last iff on the last step, each with its step's title |
| OnboardingFlow.Flow.constructor | frontend/src/components/onboarding/OnboardingFlow.tsx:13 | the flow starts on step 0, not completed |
| OnboardingFlow.Flow.Next | frontend/src/components/onboarding/OnboardingFlow.tsx:15-21 | moves to the next step, or completes once on the last one |
| OnboardingFlow.Flow.Previous | frontend/src/components/onboarding/OnboardingFlow.tsx:23-27 | moves back unless on the first step, without completing |
| OnboardingFlow.Flow.Skip | frontend/src/components/onboarding/OnboardingFlow.tsx:29-31 | completes once from any step, leaving the step |
| ProgressDots.Dots | frontend/src/components/onboarding/ProgressDots.tsx:12 | exactly `total` dots |
| ProgressDots.DotsClassify | frontend/src/components/onboarding/ProgressDots.tsx:16-20 | a dot is current iff at the current step, done iff before it, pending iff after it |
| ProgressDots.ExactlyOneCurrent | frontend/src/components/onboarding/ProgressDots.tsx:12-21 | with the step in range, exactly one dot is current, and the done dots are the ones before it |
| ProgressDots.NoCurrentOutOfRange | frontend/src/components/onboarding/ProgressDots.tsx:16-20 | with the step out of range no dot is current |
| MainApp.TabNamed | frontend/src/components/MainApp.tsx:20 | a found tab has the name; none found means no tab has it |
| MainApp.TabNamedRoundTrip | frontend/src/components/MainApp.tsx:20 | a tab's id finds that tab |
| MainApp.CurrentTabReadsLastSegment | frontend/src/components/MainApp.tsx:18-21 | only the segment after the last `/` decides: a tab id opens that tab, anything else the chat |
| MainApp.UnknownSegmentOpensChat | frontend/src/components/MainApp.tsx:20 | a last segment that is no tab id, the empty one included, opens the chat |
| BottomNavigation.TabChangePath | frontend/src/components/navigation/BottomNavigation.tsx:29-32 | the new path ends with `/` and the tab id |
| BottomNavigation.TabChangeReplacesLastSegment | frontend/src/components/navigation/BottomNavigation.tsx:30-31 | the last segment is replaced by the tab id and everything before the last `/` is kept |
| BottomNavigation.TabChangeWithoutSlash | frontend/src/components/navigation/BottomNavigation.tsx:30-31 | a path without `/` becomes `/` and the tab id |
| BottomNavigation.SwitchThenRead | frontend/src/components/navigation/BottomNavigation.tsx:29-32 | switching to a tab and reading the tab from the new path gives that tab |
| BottomNavigation.AtMostOneActive | frontend/src/components/navigation/BottomNavigation.tsx:39 | no two tabs are active at once |
| BottomNavigation.SwitchHighlights | frontend/src/components/navigation/BottomNavigation.tsx:39 | after switching to a tab, that tab and no other is highlighted |
| BottomNavigation.TabIcons | frontend/src/components/navigation/BottomNavigation.tsx:12-23 | sources, chat and studio get their icons; an unknown id gets the sources icon |
| AudioStudio.Clamp | frontend/src/components/audio/AudioStudio.tsx:77 | the target is kept within [0, duration]: unchanged inside, 0 below, the duration above |
| AudioStudio.ClampIdempotent | frontend/src/components/audio/AudioStudio.tsx:77 | clamping twice is clamping once |
| AudioStudio.SecondsPart | frontend/src/components/audio/AudioStudio.tsx:82 | the seconds are below 60 |
| AudioStudio.MinutesAndSeconds | frontend/src/components/audio/AudioStudio.tsx:81-82 | 60 × minutes + seconds is the whole number of seconds |
| AudioStudio.PadTwo | frontend/src/components/audio/AudioStudio.tsx:83 | at least two digits reading back as the number, exactly two below 100 |
| AudioStudio.FormatTimeReadsBack | frontend/src/components/audio/AudioStudio.tsx:80-84 | the clock is `m:ss`, with two digits after the colon below 60, and reads back as the whole seconds |
| AudioStudio.ProgressBounds | frontend/src/components/audio/AudioStudio.tsx:86 | no duration gives 0; within the track the bar is in [0, 100] and full exactly at the end |
| AudioStudio.Player.constructor | frontend/src/components/audio/AudioStudio.tsx:14-17 | the player starts paused at 0 with no element |
| AudioStudio.Player.AttachElement | frontend/src/components/audio/AudioStudio.tsx:39-55 | the effect creates the element at position 0 |
| AudioStudio.Player.LoadedMetadata | frontend/src/components/audio/AudioStudio.tsx:42-44 | the duration becomes the element's, or the overview's when the element reports none |
| AudioStudio.Player.TimeUpdate | frontend/src/components/audio/AudioStudio.tsx:46-48 | the shown position follows the element |
| AudioStudio.Player.Ended | frontend/src/components/audio/AudioStudio.tsx:50-53 | the end of the track stops playback and resets the shown position to 0 |
| AudioStudio.Player.PlayPause | frontend/src/components/audio/AudioStudio.tsx:64-73 | flips playing, and does nothing without an element |
| AudioStudio.Player.Seek | frontend/src/components/audio/AudioStudio.tsx:75-78 | sets the element to the clamped target, and does nothing without an element |
| AudioStudio.Player.SkipBack | frontend/src/components/audio/AudioStudio.tsx:159 | seeks to the shown position minus 15 seconds, clamped |
| AudioStudio.Player.SkipForward | frontend/src/components/audio/AudioStudio.tsx:179 | seeks to the shown position plus 15 seconds, clamped |
| AudioStudio.Player.SeekToFraction | frontend/src/components/audio/AudioStudio.tsx:196-200 | a click on the bar seeks to that fraction of the duration, clamped |

## Left out

- Timers and delays: each delayed callback is a method of its own. These are the reply timer, the voice timer, the processing callback and the awaited delays of the uploader. Nothing about time or ordering between timers is modelled.
- Identifiers, timestamps and random draws (`Date.now()`, `Math.random()`, `new Date().toISOString()`) are parameters. Identifiers are opaque and not assumed unique.
- `SourceUploader.UrlTitle` takes the host name the browser's `URL` parser would return as a parameter (`None` when parsing throws). The URL parser is not part of this model.
- `SourceUploader.Uploader.SelectOption` reports whether the file picker opens. The picker, its `accept` string and the files it returns are not modelled; the chosen files are the parameter of `SelectFiles`.
- `SourceUploader.Uploader.SelectFiles` announces every file in one call. The awaits between files, and the processed copies announced later, are not ordered against it; `FinishProcessing` announces each copy separately.
- `AudioStudio.Player`: `HTMLAudioElement` playback, `play()` rejections and the cleanup on unmount are not modelled. The element is represented by whether it exists and the position last set on it.
- `AudioStudio.Player.LoadedMetadata`: a `NaN` duration from the element is modelled as 0, which the source also replaces by the overview's own duration.
- `AudioStudio.FormatTimeReadsBack` requires a non-negative time. `formatTime` on negative or `NaN` input is not modelled.
- `AudioStudio.Player.SeekToFraction`: the fraction comes from the click position, and the layout arithmetic that produces it is not modelled.
- JavaScript numbers: times are exact reals rather than doubles, and marker numbers are unbounded naturals, so `parseInt` precision loss on very long digit strings is not modelled.
- Strings are sequences of characters, not UTF-16 code units. `toLowerCase` is modelled for ASCII letters only. The whitespace of `trim` and `\s` is the JavaScript set.
- The relevance and confidence percentages and the processing-time badge are presentational, and are not modelled.
- React re-rendering, stale closures and unmounting are not modelled. An example is the processed copy announced after the uploader has closed. The chat reply uses the sources captured when the question was sent.
- Animations, icons as components, class names, routing and the notebook loading in `MainApp` are not modelled; only `getCurrentTab` is modelled from that file.
