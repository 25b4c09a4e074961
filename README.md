# PeerConnect core, modelled in Dafny

PeerConnect is a skill-exchange site. Its users meet in rooms that hold a
video call, a shared code editor and a chat. This project models the core of
that system and proves properties about the model.

- **`RoomHub`** (`room_hub.dfy`) is the Socket.IO room hub of the server.
  - The class `Hub` holds the per-room chat history, capped at the last 50 entries.
  - It also holds the per-room presence map from socket id to user name. The map is a sequence of pairs, because a JavaScript `Map` keeps insertion order.
  - It records the rooms each socket has joined.
  - Each handler returns the events it emits as a recipient set and a payload.
  - The same module holds the addressing of the relays, the shaping of the code-execution result and the parsing of `ALLOWED_ORIGINS`.
- **`IceBuffer`** (`ice_buffer.dfy`) is the peer side of the WebRTC signalling.
  - The class `PeerSignaling` holds the "remote description set" flag and the FIFO queue of ICE candidates that arrive too early.
  - Every `addIceCandidate` attempt is recorded, and so is every candidate the connection accepts.
- **`RoomChat`** (`room_chat.dfy`) is the room chat of the browser.
  - Its history, message and typing reducers are functions.
  - It computes the "… typing..." label.
  - The class `ChatInput` models the text box: send on Enter without Shift, and the typing notices.
- **`UserProfile`** (`user_profile.dfy`) covers the profile controller.
  - `parseArray` and `parseProjects`.
  - The update document that `updateUserProfile` builds field by field.
  - The guards and the update document of `onboardUser`.
- **`UpdateProfilePage`** (`update_profile_page.dfy`) is the profile form.
  - Filling the form from a stored profile.
  - `handleChange`, and the payload that `handleSubmit` sends.
- **`FileUpload`** (`file_upload.dfy`) is the MySQL upload controller.
  - The MIME allow-list and the size limit.
  - The generated file name, with the Node `path.basename`/`path.extname` behaviour it relies on.
  - The old-avatar id, the `format` field and the `where` clause.
  - The controllers' guard order and defaults, over a file table (`FileStore`) and a user document (`UserDoc`).
- **Shared modules**:
  - `Text` (`text.dfy`): JavaScript `trim`, `split` on one character, `join`, and decimal digits.
  - `JsValues` (`js_values.dfy`): JavaScript values with truthiness, property access and template-literal text.
  - `Wrappers` (`wrappers.dfy`): `Option`.

External inputs are parameters of the model:
- The clock, `Math.random`, `uuidv4` and the host of a request.
- The outcome of every `fetch`.
- The answer of `JSON.parse`, as a function `Json` from text to an optional value.
- Whether a user exists in MongoDB.
- The Clerk user id: an empty id stands for "no authenticated user".

A JavaScript field that is absent from a payload or a body is modelled as
`""` wherever the code tests it only for truthiness.

Three behaviours of the code that are easy to miss, all modelled as the
code has them:
- `join_room` adds no presence entry. It only creates an empty presence map for a new room.
- `disconnecting` sends `presence_update` to every room the socket leaves that has a presence map. It does so even when the remaining list is empty.
- That broadcast goes to the room's members at that moment, so the leaving socket is one of the recipients.

Two edge cases of the code are stated as lemmas:
- `FileUpload.DotDotGainsExtension`: a file named `..` has no extension, but the stored name built from it has one.
- `UpdateProfilePage.ProjectUrlBecomesName`: loading a profile and submitting it unchanged turns each stored project's URL into its name and clears the URL.

## Model

| member | source | states |
|---|---|---|
| RoomHub.KeepLast | Major/server/src/server.js:240-244 | the kept history has at most 50 entries, is a suffix of the input, is the whole input when it has at most 50, and has exactly 50 otherwise |
| RoomHub.KeepLastAppend | Major/server/src/server.js:240-244 | trimming after every push gives the same history as trimming once after all of them |
| RoomHub.KeepLastEndsWith | Major/server/src/server.js:240-245 | the entry just sent is the last entry of the kept history |
| RoomHub.PresenceSet | Major/server/src/server.js:254 | `Map.set`: the key now maps to the name and every other key is unchanged; an existing key keeps its position, a new key is appended |
| RoomHub.PresenceSetUnique | Major/server/src/server.js:254 | setting a name keeps the socket ids of a presence table distinct |
| RoomHub.PresenceSetIdempotent | Major/server/src/server.js:249-257 | identifying the same socket with the same name twice leaves the same presence map as doing it once |
| RoomHub.PresenceDelete | Major/server/src/server.js:273 | `Map.delete`: the key is gone, every other key keeps its name and position, an absent key changes nothing |
| RoomHub.PresenceDeleteUnique | Major/server/src/server.js:273 | deleting keeps the socket ids distinct, and deleting a present id shortens the table by one |
| RoomHub.PresenceDeleteConcat | Major/server/src/server.js:273 | deleting works entry by entry: on a concatenation it leaves what it leaves of each part, in order |
| RoomHub.PresenceDeleteSingle | Major/server/src/server.js:273 | a one-entry table loses its entry exactly when the key is that entry's |
| RoomHub.PresenceDeleteAt | Major/server/src/server.js:273 | in a table with distinct keys, deleting the key at position i leaves the entries before i followed by the entries after i |
| RoomHub.PresenceDeleteIdempotent | Major/server/src/server.js:273 | deleting a key twice is the same as deleting it once |
| RoomHub.AddRoom | Major/server/src/server.js:153 | `socket.join`: the room is added to the socket's rooms, with no duplicates |
| RoomHub.Keys | Major/server/src/server.js:255 | the keys of a presence map, in insertion order |
| RoomHub.Values | Major/server/src/server.js:255 | `Array.from(roomMap.values())`: the names in insertion order |
| RoomHub.WithoutSocket | Major/server/src/server.js:267-276 | the cleaned presence table keeps exactly the original room keys |
| RoomHub.WithoutSocketFacts | Major/server/src/server.js:267-276 | after cleanup, the socket is absent from every room it was in (its own id-room excluded); other sockets' names are unchanged; rooms it was not in are untouched |
| RoomHub.WithoutSocketUnique | Major/server/src/server.js:267-276 | the disconnect loop keeps every presence table's socket ids distinct |
| RoomHub.AffectedRooms | Major/server/src/server.js:268-275 | the rooms broadcast to are exactly the socket's rooms other than its own id-room that have a presence map |
| RoomHub.CleanupEventsPerRoom | Major/server/src/server.js:268-275 | one `presence_update` per affected room, in `socket.rooms` order, sent to that room's members and listing that room's remaining names |
| RoomHub.CleanupNeverNamesLeaver | Major/server/src/server.js:271-274 | a presence list sent on disconnect is the room's list after the leaving socket's entry has been deleted |
| RoomHub.CleanupReachesEveryRoom | Major/server/src/server.js:268-275 | every room the socket was in that has a presence map receives an update |
| RoomHub.CodeLengthText | Major/server/src/server.js:223 | `source_code?.length`, or 0: "0" for a missing or empty source; a string counts its UTF-16 code units, an array its elements |
| RoomHub.ReplayStep | Major/server/src/server.js:240-244 | one more message sent to a room holding the last fifty of some messages holds the last fifty of those and the new one |
| RoomHub.ExecutionResultOf | Major/server/src/server.js:195-228 | without a judge URL, a stdout-only stub naming the language, the stdin and the source length (0 when absent); a non-ok response gives stderr `Execution error <status>: <body>`; an ok response gives stdout `stdout` or "" and stderr `stderr`, else `compile_output`, else ""; a thrown error gives stderr `Execution failed: <message>` |
| RoomHub.ExecuteCode | Major/server/src/server.js:190-229 | the execution result is sent to the requesting socket only |
| RoomHub.AllowedOrigins | Major/server/src/server.js:83-89 | every origin is non-empty, trimmed and comma-free; the list is empty only in production; it is exactly `Items` of the variable (the non-blank trimmed comma pieces, in order) in production or whenever those are not empty; it is the two localhost:5173 origins exactly when outside production there are none |
| RoomHub.AllowedOriginsRoundTrip | Major/server/src/server.js:83-86 | a comma-joined list of trimmed, non-empty, comma-free origins parses back to itself |
| RoomHub.Hub.constructor | Major/server/src/server.js:148-150 | the hub starts with no history, no presence maps and no sockets |
| RoomHub.Hub.Connect | Major/server/src/server.js:144 | a connecting socket is in its own id-room only; no chat or presence state changes |
| RoomHub.Hub.ToOthers | Major/server/src/server.js:154 | `socket.to(room).emit`: exactly the room's members except the sender receive the payload |
| RoomHub.Hub.ToRoom | Major/server/src/server.js:245 | `io.to(room).emit`: exactly the room's members, sender included, receive the payload |
| RoomHub.Hub.JoinRoom | Major/server/src/server.js:152-161 | the room is joined; `user_joined` goes to the others, and the stored history (or []) goes to the joiner only; an empty presence map is created only if the room had none; history is unchanged |
| RoomHub.Hub.Offer | Major/server/src/server.js:164-166 | `receive_offer` carrying the offer goes to the room's members except the sender |
| RoomHub.Hub.Answer | Major/server/src/server.js:168-170 | `receive-answer` carrying the answer goes to the room's members except the sender |
| RoomHub.Hub.IceCandidate | Major/server/src/server.js:172-174 | `receive-candidate` carrying the candidate goes to the room's members except the sender |
| RoomHub.Hub.CodeEdit | Major/server/src/server.js:177-179 | `code_change` carrying the code goes to the room's members except the sender |
| RoomHub.Hub.StdinEdit | Major/server/src/server.js:181-183 | `stdin_change` carrying the stdin goes to the room's members except the sender |
| RoomHub.Hub.LanguageEdit | Major/server/src/server.js:185-187 | `language_change` carrying the language id goes to the room's members except the sender |
| RoomHub.Hub.Typing | Major/server/src/server.js:261-264 | nothing without a room or a user; otherwise one `typing` notice with the flag coerced to a boolean, sent to everyone in the room except the sender |
| RoomHub.Hub.ChatSend | Major/server/src/server.js:232-246 | no room or no message: no state change and no event; otherwise the history becomes the last 50 of the old history plus the entry (author "Anon" when none is given), and the entry goes to the whole room, sender included; presence and membership are unchanged |
| RoomHub.Hub.PresenceIdentify | Major/server/src/server.js:249-258 | no room or no name: no change and no event; otherwise the room's map gets the socket's name, and the room receives exactly its names in insertion order |
| RoomHub.Hub.Disconnecting | Major/server/src/server.js:267-277 | the new presence table is the old one with the socket removed from each room it was in; the events are those of `CleanupEvents`; the history is unchanged |
| RoomHub.ReplayChat | Major/server/src/server.js:232-246 | after a run of valid `chat_send`s in one room, the stored history is the last 50 entries sent |
| IceBuffer.OnLocalCandidate | Major/client/src/components/VideoCall.jsx:60-65 | an `ice-candidate` is emitted to the room exactly when the event carries a candidate |
| IceBuffer.Accepted | Major/client/src/components/VideoCall.jsx:96-104 | the candidates the connection accepted are those in the queue it accepts, and no more |
| IceBuffer.AcceptedAppend | Major/client/src/components/VideoCall.jsx:96-104 | draining one more candidate adds it to the accepted list exactly when the connection accepts it |
| IceBuffer.PeerSignaling.constructor | Major/client/src/components/VideoCall.jsx:53-57 | a peer starts with no remote description, an empty queue and no attempts |
| IceBuffer.PeerSignaling.Apply | Major/client/src/components/VideoCall.jsx:82-87 | one attempt is logged; the candidate is added only when it is accepted; a failure is caught and nothing else changes |
| IceBuffer.PeerSignaling.Drain | Major/client/src/components/VideoCall.jsx:96-104 | the queue ends empty; every queued candidate is attempted once, in arrival order, failures included |
| IceBuffer.PeerSignaling.OnCandidate | Major/client/src/components/VideoCall.jsx:76-89 | without a remote description the candidate is queued and not attempted; with one it is attempted at once and the queue is untouched |
| IceBuffer.PeerSignaling.OnOffer | Major/client/src/components/VideoCall.jsx:92-122 | the remote description is set, the queue is drained in FIFO order, then the answer is emitted; a rejected description stops the handler before the drain |
| IceBuffer.PeerSignaling.OnAnswer | Major/client/src/components/VideoCall.jsx:125-142 | a rejected description attempts nothing and leaves the queue as it was; otherwise the description is set and the queue is drained in order |
| IceBuffer.CandidatesBeforeOffer | Major/client/src/components/VideoCall.jsx:76-108 | candidates that arrive before the offer are all attempted, in arrival order, before the answer is emitted |
| RoomChat.OnHistory | Major/client/src/components/RoomChat.jsx:12-15 | `chat_history` replaces the message list wholesale |
| RoomChat.OnMessage | Major/client/src/components/RoomChat.jsx:16-19 | `chat_message` appends exactly one entry and keeps the earlier ones in order |
| RoomChat.ReceivedAppends | Major/client/src/components/RoomChat.jsx:16-19 | a run of messages is appended in arrival order |
| RoomChat.ClientShowsServerHistory | Major/client/src/components/RoomChat.jsx:12-19 | after the history and then some messages, the list is the history followed by those messages |
| RoomChat.Remove | Major/client/src/components/RoomChat.jsx:24 | `Set.delete`: the user is gone, the others stay, and an absent user changes nothing |
| RoomChat.RemoveConcat | Major/client/src/components/RoomChat.jsx:24 | deleting works name by name: on a concatenation it leaves what it leaves of each part, in insertion order |
| RoomChat.RemoveSingle | Major/client/src/components/RoomChat.jsx:24 | a one-name set loses its name exactly when it is the user's |
| RoomChat.RemoveAt | Major/client/src/components/RoomChat.jsx:24 | in a set without duplicates, deleting the name at position i leaves the names before i followed by the names after i |
| RoomChat.OnTyping | Major/client/src/components/RoomChat.jsx:20-27 | `isTyping` true adds the user at the end unless present; false removes the user; other users are unchanged; no duplicates arise |
| RoomChat.RemoveIdempotent | Major/client/src/components/RoomChat.jsx:24 | removing a user twice is the same as once |
| RoomChat.OnTypingStopAt | Major/client/src/components/RoomChat.jsx:20-27 | a stop event removes the user from its place and keeps everyone else in insertion order |
| RoomChat.OnTypingIdempotent | Major/client/src/components/RoomChat.jsx:20-27 | the same typing event applied twice is the same as once |
| RoomChat.OnTypingOthers | Major/client/src/components/RoomChat.jsx:20-27 | events about two different users each decide only their own user's membership |
| RoomChat.TypingLabel | Major/client/src/components/RoomChat.jsx:81-85 | no label for no typists; one or two names joined with ", "; more than two: the first two names and " and k others" |
| RoomChat.TypingLabelNamesFirstTwo | Major/client/src/components/RoomChat.jsx:83-84 | with more than two typists the label depends only on the first two names and the count |
| RoomChat.TypingLabelCount | Major/client/src/components/RoomChat.jsx:83-84 | the "others" count shown is the number of typists minus two |
| RoomChat.ChatInput.constructor | Major/client/src/components/RoomChat.jsx:6-9 | the input starts empty with no typing timer pending |
| RoomChat.ChatInput.Send | Major/client/src/components/RoomChat.jsx:48-54 | whitespace-only text emits nothing and keeps the text; otherwise `chat_send` with the trimmed text, then `typing` false, and the input is cleared |
| RoomChat.ChatInput.OnKeyDown | Major/client/src/components/RoomChat.jsx:56-61 | Enter without Shift prevents the default and sends; any other key does nothing |
| RoomChat.ChatInput.OnChange | Major/client/src/components/RoomChat.jsx:63-70 | the text is replaced, `typing` true is emitted, and a stop notice is pending |
| RoomChat.ChatInput.TimerFires | Major/client/src/components/RoomChat.jsx:67-69 | a pending stop notice emits `typing` false once; otherwise nothing |
| RoomChat.TypeAndEnter | Major/client/src/components/RoomChat.jsx:48-70 | typing text and pressing Enter emits `typing` true, `chat_send` with the trimmed text, then `typing` false, and clears the input, unless the text is blank |
| UserProfile.TrimEach | Major/server/src/controllers/user.controller.js:223 | `map(s => s.trim())` succeeds exactly when every element is a string, and gives each trimmed |
| UserProfile.ParseArray | Major/server/src/controllers/user.controller.js:221-230 | a falsy input gives []; an array gives its trimmed elements; text that is not JSON gives its trimmed comma pieces; text that parses to a non-array gives []; text that parses to an array gives its trimmed elements, or its trimmed comma pieces when an element is not text; every result element is trimmed |
| UserProfile.ParseArrayPieces | Major/server/src/controllers/user.controller.js:227-228 | non-JSON text yields one element per comma plus one, with no empty pieces filtered out |
| UserProfile.ParseArrayRoundTrip | Major/server/src/controllers/user.controller.js:227-228 | comma-joined trimmed pieces that are not JSON parse back to the same list |
| UserProfile.ParseArrayIdempotent | Major/server/src/controllers/user.controller.js:221-230 | normalising an already normalised list changes nothing |
| UserProfile.TrimEachTrimmed | Major/server/src/controllers/user.controller.js:223 | trimming trimmed strings gives them back |
| UserProfile.ProjectOf | Major/server/src/controllers/user.controller.js:238-251 | a string becomes exactly `{name: trimmed, gitHubUrl: ""}`; an object with a truthy name becomes exactly `{name, gitHubUrl: gitHubUrl or ""}`, with no other key; `null` throws; anything else is returned unchanged |
| UserProfile.MapProjects | Major/server/src/controllers/user.controller.js:237-252 | the array is mapped element by element with its length kept, and throws exactly when an element is `null` |
| UserProfile.NamedProjects | Major/server/src/controllers/user.controller.js:259-262 | one project per comma piece, with the trimmed piece as name and an empty URL |
| UserProfile.ParseProjects | Major/server/src/controllers/user.controller.js:233-264 | a falsy input gives []; an array is mapped with its length kept; non-JSON text gives one project per comma piece; JSON that is not an array gives []; a JSON array gives its mapped elements when none is `null`, and otherwise one project per comma piece of the text |
| UserProfile.ParseProjectsNullInJson | Major/server/src/controllers/user.controller.js:254-262 | a JSON array holding `null` throws inside the `try`, so the text falls back to one project per comma piece |
| UserProfile.ProjectOfIdempotent | Major/server/src/controllers/user.controller.js:238-251 | normalising a normalised project changes nothing |
| UserProfile.ParseProjectsIdempotent | Major/server/src/controllers/user.controller.js:237-252 | normalising a normalised project array changes nothing |
| UserProfile.SetOf | Major/server/src/controllers/user.controller.js:270-277 | `$set` holds exactly the truthy fields; plain fields are copied; list fields go through `parseArray` and projects through `parseProjects` |
| UserProfile.CertificateUrls | Major/server/src/controllers/user.controller.js:213-218 | the certificate list is never nullish; it is [] when no files came with the request; with files it is `req.body.certificateUrls \|\| []`, the body's list itself whenever that is truthy |
| UserProfile.Put | Major/server/src/controllers/user.controller.js:270-277 | one `if (field) $set.field = …` step: it throws exactly when normalising that truthy field throws, and otherwise extends the document built so far |
| UserProfile.BuildSet | Major/server/src/controllers/user.controller.js:267-277 | building `$set` field by field throws exactly when some truthy field's normaliser throws, and otherwise gives `SetOf` |
| UserProfile.SetOfBuilt | Major/server/src/controllers/user.controller.js:267-277 | a document built over all fields is the declarative `$set` |
| UserProfile.NothingToUpdate | Major/server/src/controllers/user.controller.js:270-285 | `$set` is empty exactly when no update field is truthy |
| UserProfile.UpdateUserProfile | Major/server/src/controllers/user.controller.js:194-311 | 401 without a user id; 500 when a normaliser throws; 400 "Nothing to update" when `$set` and `$push` are both empty; otherwise the update holds `$set` only when non-empty and `$push` only when there are certificates, answering 404 for an unknown user and 200 otherwise |
| UserProfile.SomeProjectIncomplete | Major/server/src/controllers/user.controller.js:88 | `some(p => !p.name \|\| !p.gitHubUrl)` is false exactly when every project has a truthy name and URL |
| UserProfile.SomeProjectIncompleteFirst | Major/server/src/controllers/user.controller.js:88 | the first incomplete project decides: a `null` or `undefined` one throws, any other makes the test true |
| UserProfile.CheckProjects | Major/server/src/controllers/user.controller.js:83-98 | the projects text must parse as a JSON array of complete projects; otherwise it is refused with the code's message for that case |
| UserProfile.CheckProjectsFirstBad | Major/server/src/controllers/user.controller.js:84-98 | the first incomplete project decides between "Each project must have a name and a url" and "Invalid projects format" |
| UserProfile.SplitTrim | Major/server/src/controllers/user.controller.js:111-118 | `v?.split(",").map(trim) \|\| []`: nullish gives []; text gives exactly its trimmed comma pieces, in order, one per comma plus one; other values throw |
| UserProfile.SplitTrimRoundTrip | Major/server/src/controllers/user.controller.js:111-118 | comma-joined trimmed pieces split back to the same list |
| UserProfile.OnboardUser | Major/server/src/controllers/user.controller.js:60-140 | 401 without a user id; 400 when a required field is falsy; 400 with the check's message on bad projects; once those pass, 500 "Internal server error" with no document exactly when `skills`, `skillsToLearn` or `availability` is neither nullish nor a string, and otherwise a document with 200 "User onboarded successfully" for a known user and 404 "User not found in database" for an unknown one |
| UserProfile.OnboardedDoc | Major/server/src/controllers/user.controller.js:60-140 | a built document comes from a user id and a body with every required field; its projects passed the check and each has a name and a URL; skills and availability were text, one trimmed piece per comma plus one; missing `skillsToLearn` gives none; the plain fields are copied; `isOnBoarded` is set and the certificates are the uploaded ones |
| UserProfile.OnboardedLists | Major/server/src/controllers/user.controller.js:111-118 | the document's skills, skillsToLearn and availability are the split and trimmed body fields, so with `SplitTrimRoundTrip` comma-joined lists are stored as given |
| UpdateProfilePage.InitialForm | Major/client/src/pages/UpdateProfilePage.jsx:12-21 | the form has its eight fields, all "" |
| UpdateProfilePage.HandleChange | Major/client/src/pages/UpdateProfilePage.jsx:54-56 | only the named field changes, to the new text; every other field is unchanged |
| UpdateProfilePage.JoinedOrEmpty | Major/client/src/pages/UpdateProfilePage.jsx:34 | `u.x?.join(", ") \|\| ""`: nullish gives "", an array gives its join, anything else throws |
| UpdateProfilePage.ShownProject | Major/client/src/pages/UpdateProfilePage.jsx:37 | a string project is shown as itself, an object as its `gitHubUrl`, and a nullish one throws |
| UpdateProfilePage.ShownProjects | Major/client/src/pages/UpdateProfilePage.jsx:36-38 | every project is shown in order, and the map throws exactly when one is nullish |
| UpdateProfilePage.ProjectsText | Major/client/src/pages/UpdateProfilePage.jsx:35-38 | no projects gives ""; a value that is not an array throws; an array throws exactly when an element is nullish, and otherwise gives the shown projects (a string as itself, an object as its `gitHubUrl`) joined with ", " |
| UpdateProfilePage.FetchProfile | Major/client/src/pages/UpdateProfilePage.jsx:32-45 | the form has exactly its eight fields and its four lists are text; it throws exactly when the user is missing, a list is neither missing nor an array, or a project is `null` or `undefined` |
| UpdateProfilePage.FetchProfileFields | Major/client/src/pages/UpdateProfilePage.jsx:32-45 | each plain field is the stored value or "" when falsy; each list is its items joined with ", ", or "" when missing; projects are shown as text |
| UpdateProfilePage.CommaList | Major/client/src/pages/UpdateProfilePage.jsx:64-67 | `split(",").map(trim).filter(Boolean)`: every element is non-empty, trimmed and comma-free, there is at most one per comma plus one, and the elements are exactly the non-empty trimmed pieces (their order is given by `Text.ItemsAround` and `Text.ItemsOfPiece`) |
| UpdateProfilePage.NamedProjects | Major/client/src/pages/UpdateProfilePage.jsx:72-75 | one project per name, with an empty URL |
| UpdateProfilePage.Payload | Major/client/src/pages/UpdateProfilePage.jsx:62-84 | the payload is built exactly when the four list fields are text |
| UpdateProfilePage.PayloadKeepsFields | Major/client/src/pages/UpdateProfilePage.jsx:63 | the payload has the form's keys, and location, role, experience and experienceType pass through unchanged |
| UpdateProfilePage.PayloadTextLists | Major/client/src/pages/UpdateProfilePage.jsx:64-83 | skills, availability and skillsToLearn are the comma lists of their text |
| UpdateProfilePage.PayloadProjectList | Major/client/src/pages/UpdateProfilePage.jsx:68-75 | projects are the named projects of the comma list |
| UpdateProfilePage.PayloadProjects | Major/client/src/pages/UpdateProfilePage.jsx:68-75 | the i-th project sent is named by the i-th comma piece (non-empty and trimmed, by `CommaList`) and has an empty `gitHubUrl` |
| UpdateProfilePage.LoadedFormSubmits | Major/client/src/pages/UpdateProfilePage.jsx:32-84 | a loaded form, edited in any way, can always be submitted |
| UpdateProfilePage.EditedSubmittable | Major/client/src/pages/UpdateProfilePage.jsx:54-56 | `handleChange` keeps a submittable form submittable |
| UpdateProfilePage.CommaListRoundTrip | Major/client/src/pages/UpdateProfilePage.jsx:34-67 | a list joined with ", " when the form is filled splits back to the same list on submit |
| UpdateProfilePage.SkillsSurviveTheForm | Major/client/src/pages/UpdateProfilePage.jsx:34-67 | stored skills that are non-empty, trimmed and comma-free return unchanged when the loaded form is submitted |
| UpdateProfilePage.ProjectUrlBecomesName | Major/client/src/pages/UpdateProfilePage.jsx:35-75 | a stored project shown by its URL comes back from an unchanged submit named by that URL, with an empty URL |
| UpdateProfilePage.OneProjectSent | Major/client/src/pages/UpdateProfilePage.jsx:68-75 | a form whose projects text is one clean item sends exactly one project, named by it, with an empty URL |
| FileUpload.FileFilter | Major/server/src/controllers/mysqlUpload.controller.js:15-36 | a file is accepted exactly when its MIME type is one of the eleven listed; otherwise the error is "Invalid file type…" |
| FileUpload.Admit | Major/server/src/controllers/mysqlUpload.controller.js:11-36 | a file passes exactly when its type is allowed and it is at most 50 MiB |
| FileUpload.DropTrailingSlashes | Major/server/src/controllers/mysqlUpload.controller.js:41 | a prefix of the path that does not end in '/', the whole path when it has no '/' |
| FileUpload.DroppedAreSlashes | Major/server/src/controllers/mysqlUpload.controller.js:41 | only '/' characters are dropped from the end |
| FileUpload.Basename | Major/server/src/controllers/mysqlUpload.controller.js:41 | `path.basename`: the last path segment after trailing slashes are dropped holds no '/' |
| FileUpload.BasenameAfterLastSlash | Major/server/src/controllers/mysqlUpload.controller.js:41 | the base name is exactly what follows the last '/' of the path without its trailing slashes, or all of it when it has no '/' |
| FileUpload.LastIndex | Major/server/src/controllers/mysqlUpload.controller.js:41 | the position of the last occurrence of a character; none exactly when it does not occur |
| FileUpload.ExtOf | Major/server/src/controllers/mysqlUpload.controller.js:41 | `path.extname` of a segment: "" or a suffix starting with a '.' after which there is no '.', never the whole segment |
| FileUpload.NoExtension | Major/server/src/controllers/mysqlUpload.controller.js:41 | the extension is "" exactly when the segment is empty, is "..", or has no '.' after its first character |
| FileUpload.StemThenExtension | Major/server/src/controllers/mysqlUpload.controller.js:41-42 | the base name without its extension, then the extension, give back the segment |
| FileUpload.GenerateFileName | Major/server/src/controllers/mysqlUpload.controller.js:40-44 | the stored name starts with the original name's stem (its base name without the extension) and "_", and ends with the original extension |
| FileUpload.GeneratedBasename | Major/server/src/controllers/mysqlUpload.controller.js:40-44 | the stored name is a single path segment |
| FileUpload.GeneratedNameKeepsExtension | Major/server/src/controllers/mysqlUpload.controller.js:40-44 | the stored name has the original's extension, for every original other than `..` |
| FileUpload.DotDotGainsExtension | Major/server/src/controllers/mysqlUpload.controller.js:40-44 | `..` has no extension, yet the name generated from it does |
| FileUpload.GeneratedNamesDiffer | Major/server/src/controllers/mysqlUpload.controller.js:40-44 | different clock readings or uuids give different names for the same file |
| FileUpload.OldAvatarId | Major/server/src/controllers/mysqlUpload.controller.js:195-198 | an id is taken exactly when the avatar URL contains `/api/mysql-upload/file/`, and it is the last '/'-free segment |
| FileUpload.OldAvatarIdOfFileUrl | Major/server/src/controllers/mysqlUpload.controller.js:194-220 | the avatar URL this controller writes gives back the id of its row |
| FileUpload.Format | Major/server/src/controllers/mysqlUpload.controller.js:340 | the format is never empty, and is "unknown" when the type has no '/' |
| FileUpload.FormatOfType | Major/server/src/controllers/mysqlUpload.controller.js:340 | `top/sub` gives `sub`, or "unknown" when `sub` is empty |
| FileUpload.Matching | Major/server/src/controllers/mysqlUpload.controller.js:328-332 | `findAll({ where })` returns exactly the rows matching every column of the clause |
| FileUpload.MatchingConcat | Major/server/src/controllers/mysqlUpload.controller.js:328-332 | the query works row by row: on a concatenation it returns what it returns for each part, in table order |
| FileUpload.MatchingSingle | Major/server/src/controllers/mysqlUpload.controller.js:328-332 | a one-row table returns its row exactly when the row matches |
| FileUpload.FindFirst | Major/server/src/controllers/mysqlUpload.controller.js:371-376 | `findOne` finds nothing exactly when no row matches, and otherwise a matching row |
| FileUpload.WithoutId | Major/server/src/controllers/mysqlUpload.controller.js:197 | destroying by id removes exactly the rows with that id |
| FileUpload.WithoutIdConcat | Major/server/src/controllers/mysqlUpload.controller.js:197 | destroying works row by row: on a concatenation it leaves what it leaves of each part, in order |
| FileUpload.WithoutIdSingle | Major/server/src/controllers/mysqlUpload.controller.js:197 | a one-row table loses its row exactly when the id is that row's |
| FileUpload.WithoutIdDistinct | Major/server/src/controllers/mysqlUpload.controller.js:197 | destroying rows keeps the remaining ids distinct |
| FileUpload.WithoutIdAt | Major/server/src/controllers/mysqlUpload.controller.js:197 | with distinct ids, destroying the id of the row at position i leaves the rows before i followed by the rows after i |
| FileUpload.FileStore.constructor | Major/server/src/controllers/mysqlUpload.controller.js:69 | the file table starts empty, with ids starting at 1 |
| FileUpload.FileStore.Create | Major/server/src/controllers/mysqlUpload.controller.js:69-80 | `File.create` appends one row with a fresh id |
| FileUpload.FileStore.DestroyWhereId | Major/server/src/controllers/mysqlUpload.controller.js:198 | `File.destroy({ where: { id } })` leaves the rows without that id |
| FileUpload.UserDoc.constructor | Major/server/src/controllers/mysqlUpload.controller.js:189 | a user document holds its id, certificates and avatar |
| FileUpload.ResourceRow | Major/server/src/controllers/mysqlUpload.controller.js:69-80 | the title is the given one, or the original name when none is given; the description is the given text ("" when absent); the row is a public `resource` of the uploader, created now, with the generated file name and the upload's original name, MIME type and size |
| FileUpload.UploadResource | Major/server/src/controllers/mysqlUpload.controller.js:47-109 | 401 without a user, then 400 without a file, then 404 for an unknown user, each leaving the table unchanged; otherwise one `resource` row is stored; the type shown defaults to "document" |
| FileUpload.UploadCertificate | Major/server/src/controllers/mysqlUpload.controller.js:112-174 | the same guard order; otherwise one `certificate` row is stored and its URL is appended to the user's certificates |
| FileUpload.UploadAvatar | Major/server/src/controllers/mysqlUpload.controller.js:177-243 | the same guard order; otherwise the old avatar's row is destroyed when the avatar points to this store, one `avatar` row is stored and the avatar is set to its URL |
| FileUpload.WhereClause | Major/server/src/controllers/mysqlUpload.controller.js:323-326 | the clause always filters by `uploadedBy`, adds `fileType` exactly when a type is given, and matches exactly the listable rows |
| FileUpload.UserFiles | Major/server/src/controllers/mysqlUpload.controller.js:323-332 | the listed rows are exactly the owner's rows of the requested type |
| FileUpload.UserFilesConcat | Major/server/src/controllers/mysqlUpload.controller.js:323-332 | the selection works row by row: on a concatenation it keeps what it keeps of each part, in table order |
| FileUpload.UserFilesSingle | Major/server/src/controllers/mysqlUpload.controller.js:323-332 | a one-row table keeps its row exactly when the row is the owner's and of the requested type |
| FileUpload.MatchingUserFiles | Major/server/src/controllers/mysqlUpload.controller.js:323-332 | the query with the built clause returns exactly `UserFiles` |
| FileUpload.InsertByTime | Major/server/src/controllers/mysqlUpload.controller.js:331 | inserting into newest-first rows keeps them newest first and adds exactly the one row |
| FileUpload.NewestFirst | Major/server/src/controllers/mysqlUpload.controller.js:331 | `order: [['createdAt', 'DESC']]`: the same rows (as a multiset), no row newer than one before it |
| FileUpload.Listings | Major/server/src/controllers/mysqlUpload.controller.js:335-342 | one listing per row, at the same position |
| FileUpload.GetUserFiles | Major/server/src/controllers/mysqlUpload.controller.js:309-354 | 401, then 404; otherwise the listings of the owner's matching rows, newest first |
| FileUpload.ListedAlone | Major/server/src/controllers/mysqlUpload.controller.js:323-342 | a table of one row lists that row exactly when it is the owner's and of the asked type, and nothing otherwise |
| FileUpload.DeleteFile | Major/server/src/controllers/mysqlUpload.controller.js:357-394 | 401, then 404 for an unknown user, then 404 "File not found or unauthorized" when the caller owns no row with that id; otherwise 200, exactly that id's rows are gone, and the table is one row shorter |
| FileUpload.ReplaceAvatar | Major/server/src/controllers/mysqlUpload.controller.js:177-243 | a second avatar upload removes the first avatar's row and points the avatar at the second |
| FileUpload.UploadThenList | Major/server/src/controllers/mysqlUpload.controller.js:47-354 | an uploaded resource is listed with its title, the format of its type and the resource filter, and not under certificates |
| FileUpload.DeleteOnlyOwn | Major/server/src/controllers/mysqlUpload.controller.js:357-394 | another user cannot delete a file; its owner can, and the table is then empty |
| Text.Trim | Major/server/src/controllers/user.controller.js:223 | `String.prototype.trim`: the result is trimmed and no longer than the input |
| Text.TrimEmpty | Major/server/src/controllers/user.controller.js:223 | trimming gives "" exactly when the input is all white space |
| Text.TrimIdempotent | Major/server/src/controllers/user.controller.js:223 | trimming twice is trimming once |
| Text.Split | Major/server/src/controllers/user.controller.js:228 | `split(",")`: the pieces hold no separator, and there is one more piece than separators |
| Text.JoinSplit | Major/server/src/controllers/user.controller.js:228 | joining the pieces of a split with the separator gives back the text |
| Text.SplitJoin | Major/server/src/controllers/user.controller.js:228 | splitting the join of separator-free pieces gives back the pieces |
| Text.TrimmedPieces | Major/server/src/controllers/user.controller.js:228 | `split(",").map(trim)`: one piece per separator plus one, each trimmed and without the separator |
| Text.TrimmedPiecesOfJoin | Major/server/src/controllers/user.controller.js:228 | trimmed, separator-free pieces joined with the separator split and trim back to themselves |
| Text.Items | Major/server/src/server.js:83-86 | `split(sep).map(trim).filter(Boolean)`: each item non-empty, trimmed and separator-free; at most one per separator plus one; the items are the non-empty trimmed pieces |
| Text.ItemsAround | Major/server/src/server.js:83-86 | a separator cuts the items in two: the items before it followed by the items after it |
| Text.ItemsOfPiece | Major/client/src/pages/UpdateProfilePage.jsx:64-67 | a separator-free text is one item, its trimmed self, or no item when it is blank |
| Text.ItemsOfJoin | Major/server/src/server.js:83-86 | clean items joined with the separator read back as themselves |
| Text.NonEmptyConcat | Major/server/src/server.js:86 | `filter(Boolean)` works piecewise: the kept strings of a concatenation are those of each part, in order |
| Text.NonEmptySingle | Major/server/src/server.js:86 | a single string is kept exactly when it is not empty |
| JsValues.Utf16Length | Major/server/src/server.js:223 | a string's `length` counts UTF-16 code units: at least one and at most two per character |
| JsValues.Utf16LengthOfBmp | Major/server/src/server.js:223 | a string of Basic Multilingual Plane characters has one code unit per character |
| JsValues.Utf16LengthSingle | Major/server/src/server.js:223 | one character is one code unit below U+10000 and two (a surrogate pair) from U+10000 up |
| JsValues.Utf16LengthConcat | Major/server/src/server.js:223 | code units add up over concatenation |
| Text.LastPiece | Major/server/src/controllers/mysqlUpload.controller.js:197 | `split('/').pop()`: the last piece holds no separator |
| Text.NatStr | Major/server/src/controllers/mysqlUpload.controller.js:41 | `${Date.now()}`: at least one decimal digit, with a leading zero only for 0 |
| Text.NatStrDigits | Major/server/src/controllers/mysqlUpload.controller.js:41 | the decimal text reads back as the number it renders |

## Left out

- Socket.IO transport, how the library stores room membership, the Express and CORS middleware wiring, and the HTTP routes. Membership is the explicit `rooms` field of `Hub`.
- The CORS localhost regular expression at Major/server/src/server.js:97 and :116 needs a regex library that the model does not have. As written, its `(:\\d+)?` matches a literal backslash rather than a port number.
- The Judge0 `fetch`, its URL and headers, MongoDB, Mongoose, Sequelize, multer and Clerk. Their outcomes are parameters: a `FetchOutcome`, a `Json` oracle, a `UserDoc?` that is `null` for an unknown user, and a user id.
- The clock, `Math.random` and `uuidv4` are parameters. So are the request's protocol and host.
- `RTCPeerConnection` beyond `setRemoteDescription` and `addIceCandidate`. Those two are modelled by a flag, an accept predicate and logs. `getUserMedia`, tracks, `createAnswer` and the first `useEffect` of the video call are left out; the answer is a parameter.
- Interleaving of asynchronous handlers, such as a candidate arriving in the middle of a drain. Each handler is one sequential step.
- RoomHub.Hub.Disconnecting: the loop deletes from a local copy of the presence tables, which is stored when the loop ends; `server.js` deletes from each room's `Map` as it goes. Nothing can read the tables between the two, because the handler runs as one step.
- The 1200 ms typing timer is a "stop notice pending" flag that `TimerFires` clears. The delay itself is not modelled, so `clearTimeout` shows up only as the flag being set again.
- Scrolling, rendering and JSX.
- Numbers other than integers, and properties inherited from `Object.prototype`.
- A missing `req.body`, and the 500 answers of the `catch` blocks for database failures. The exceptions are `UpdateUserProfile` and `OnboardUser`, which do model the 500 of a normaliser or a `split` that throws.
- `getFile`, `downloadFile`, the response headers and file streaming, the file buffer, and the `downloadCount` column.
- FileUpload.GetUserFiles: rows created at the same time are listed in table order; the query itself leaves their order open. The `downloadCount` column is not among the listed fields (see above).
- FileUpload.DeleteFile: compares a row's id with the request's id as decimal text; MySQL's other string-to-number coercions are not modelled.
- FileUpload.Basename: models POSIX `path.basename` and `path.extname` only, with no Windows separators.
- FileUpload.FileFilter: the `format` of each of the eleven literal allowed types is not proved one by one; `FormatOfType` covers every type of the form `top/sub`.
- The default values of the file table's columns. Major/server/src/models/file.model.js is not part of this model.
- `saveAuthenticatedUser`, `getUserDetails` and `getMatchingUsers` in the user controller are outside the modelled core.
