/** The chat app's state and the steps that change it: sign-up and log-in
    against the user table, and the session steps of the main page (select,
    rename, delete, new chat, a chat turn, a screenshot turn, log-out).
    Page rendering is not modelled; each step is what one button press or
    one submitted input does to the state. */
module PrivacyCheck {
  import opened Wrappers
  import opened Sessions
  import Text
  import Annotation

  // ----- naming a new session -----

  /** The name a chat turn gives a new session: the first 20 characters of
      the input and `...` when the input is longer, else the input itself. */
  function SessionName(input: string): (name: string)
    ensures |input| <= 20 ==> name == input
    ensures |input| > 20 ==> |name| == 23 && name[..20] == input[..20] && name[20..] == "..."
    ensures |name| <= 23
    ensures name == [] <==> input == []
  {
    if |input| > 20 then input[..20] + "..." else input
  }

  /** Two different inputs can name the same session: any two long inputs
      that share their first 20 characters, and a 23-character input that
      itself ends in `...`. */
  lemma SessionNameCollides(a: string, b: string)
    requires |a| > 20 && |b| > 20 && a[..20] == b[..20]
    ensures SessionName(a) == SessionName(b)
    ensures SessionName(a[..20] + "...") == SessionName(a)
  {
  }

  // ----- the screenshot turn's fixed content -----

  const ScreenshotSession: string := "Screenshot Analysis"
  const ScreenshotUserText: string := "Uploaded a screenshot for analysis."
  const ScreenshotSummary: string :=
    "The" + " screenshot contains visible tabs, personal email ID, and browser history. Avoid sharing such screenshots online."

  /** The canned reply of a screenshot turn: `**Risk Score:** 72`, a blank
      line, the summary marker and the summary text. */
  const ScreenshotReply: string :=
    Annotation.RiskMarker + "72\n\n" + Annotation.SummaryMarker + ScreenshotSummary

  /** The canned reply shows a score of 72 and its summary text. */
  lemma ScreenshotReplyAnnotation()
    ensures Annotation.ExtractScore(ScreenshotReply) == Some(72)
    ensures Annotation.ExtractSummary(ScreenshotReply) == Some(ScreenshotSummary)
  {
    ScreenshotScore();
    ScreenshotSummaryText();
  }

  lemma ScreenshotScore()
    ensures Annotation.ExtractScore(ScreenshotReply) == Some(72)
  {
    var rest := "\n\n" + Annotation.SummaryMarker + ScreenshotSummary;
    assert Text.Digits(72) == "72" by { assert Text.Digits(7) == "7"; }
    assert ScreenshotReply == "" + Annotation.RiskMarker + Text.Digits(72) + rest;
    Annotation.ScoreAfter("", 72, rest);
  }

  lemma ScreenshotSummaryText()
    ensures Annotation.ExtractSummary(ScreenshotReply) == Some(ScreenshotSummary)
  {
    var head := Annotation.RiskMarker + "72\n\n";
    forall j: nat ensures !Text.OccursAt(head, Annotation.SummaryMarker, j) {
      assert |head| < |Annotation.SummaryMarker|;
    }
    Annotation.SummaryAfter(head, ScreenshotSummary);
    ScreenshotSummaryTrimmed();
  }

  lemma ScreenshotSummaryTrimmed()
    ensures Text.Strip(ScreenshotSummary) == ScreenshotSummary
  {
    assert ScreenshotSummary[0] == "The"[0] == 'T';
    assert ScreenshotSummary[|ScreenshotSummary| - 1] == '.';
    Text.StripTrimmed(ScreenshotSummary);
  }

  // ----- the app state -----

  /** `st.session_state` together with the user table. `users` maps a user
      name to the digest of the password; `sessions` is the logged-in
      user's `chat_sessions`; `current` is `current_session`; `showActions`
      is the session whose rename box is open. */
  class AppState {
    var loggedIn: bool
    var username: string
    var users: map<string, string>
    var sessions: Table
    var current: Option<string>
    var showActions: Option<string>

    /** The sessions dict is well formed, the current session (if any) is
        one of its keys, and a logged-out state holds no sessions. */
    ghost predicate Valid()
      reads this
    {
      && Sessions.Valid(sessions)
      && (current.Some? ==> current.value in sessions.chats)
      && (!loggedIn ==> username == "" && sessions == Empty && current.None?)
    }

    /** `init_state()` with the user table read at start-up. */
    constructor(storedUsers: map<string, string>)
      ensures Valid()
      ensures !loggedIn && username == "" && sessions == Empty
      ensures current.None? && showActions.None? && users == storedUsers
    {
      loggedIn := false;
      username := "";
      users := storedUsers;
      sessions := Empty;
      current := None;
      showActions := None;
    }

    /** Create Account: an existing name is refused and nothing changes;
        otherwise the name is bound to the digest of the password. The
        name is not checked for being empty. */
    method Signup(name: string, password: string, hash: string -> string) returns (created: bool)
      requires Valid() && !loggedIn
      modifies this`users
      ensures Valid()
      ensures created <==> name !in old(users)
      ensures created ==> users == old(users)[name := hash(password)]
      ensures !created ==> users == old(users)
    {
      if name in users {
        created := false;
      } else {
        users := users[name := hash(password)];
        created := true;
      }
    }

    /** Log In: succeeds exactly when the name is known and its stored
        digest equals the digest of the password, with no distinction
        between an unknown name and a wrong password. On success the
        user's sessions are loaded and the first of them, if any, becomes
        current; on failure nothing changes. */
    method Login(name: string, password: string, hash: string -> string, load: string -> Table) returns (ok: bool)
      requires Valid() && !loggedIn
      requires Sessions.Valid(load(name))
      modifies this`loggedIn, this`username, this`sessions, this`current
      ensures Valid()
      ensures ok <==> name in users && users[name] == hash(password)
      ensures ok ==> loggedIn && username == name && sessions == load(name)
      ensures ok ==> current == if load(name).names == [] then old(current) else Some(load(name).names[0])
      ensures !ok ==> loggedIn == old(loggedIn) && username == old(username)
      ensures !ok ==> sessions == old(sessions) && current == old(current)
    {
      ok := name in users && users[name] == hash(password);
      if ok {
        loggedIn := true;
        username := name;
        sessions := load(name);
        if sessions.names != [] {
          current := Some(sessions.names[0]);
        }
      }
    }

    /** Log-out: back to the logged-out state. The open rename box is left
        as it was. */
    method Logout()
      requires Valid() && loggedIn
      modifies this`loggedIn, this`username, this`sessions, this`current
      ensures Valid()
      ensures !loggedIn && username == "" && sessions == Empty && current.None?
    {
      loggedIn := false;
      username := "";
      sessions := Empty;
      current := None;
    }

    /** The session's own button in the sidebar: it becomes current. */
    method Select(key: string)
      requires Valid() && loggedIn && key in sessions.chats
      modifies this`current
      ensures Valid()
      ensures current == Some(key)
    {
      current := Some(key);
    }

    /** The session's rename button: its rename box opens. */
    method OpenRename(key: string)
      requires Valid() && loggedIn && key in sessions.chats
      modifies this`showActions
      ensures Valid()
      ensures showActions == Some(key)
    {
      showActions := Some(key);
    }

    /** The session's delete button: exactly that key goes, every other
        transcript stays, and the current session is cleared only when it
        was the deleted one. */
    method DeleteSession(key: string)
      requires Valid() && loggedIn && key in sessions.chats
      modifies this`sessions, this`current
      ensures Valid()
      ensures sessions == Remove(old(sessions), key)
      ensures sessions.chats.Keys == old(sessions.chats.Keys) - {key}
      ensures forall n :: n in sessions.chats ==> sessions.chats[n] == old(sessions.chats[n])
      ensures current == if old(current) == Some(key) then None else old(current)
    {
      sessions := Remove(sessions, key);
      if current == Some(key) {
        current := None;
      }
    }

    /** A name typed into an open rename box. A non-empty name other than
        the key moves the transcript to it, replacing any session already
        under that name, makes it current and closes the box. Anything
        else changes nothing. */
    method RenameSession(key: string, newName: string)
      requires Valid() && loggedIn && key in sessions.chats
      modifies this`sessions, this`current, this`showActions
      ensures Valid()
      ensures old(showActions) == Some(key) && newName != "" && newName != key ==>
        && sessions == Rename(old(sessions), key, newName)
        && current == Some(newName)
        && showActions.None?
      ensures !(old(showActions) == Some(key) && newName != "" && newName != key) ==>
        sessions == old(sessions) && current == old(current) && showActions == old(showActions)
    {
      if showActions == Some(key) && newName != "" && newName != key {
        ApplyRename(key, newName);
      }
    }

    /** The rename itself: `d[new_name] = d.pop(key)`, the new name becomes
        current and the rename box closes. */
    method ApplyRename(key: string, newName: string)
      requires Valid() && loggedIn && key in sessions.chats
      modifies this`sessions, this`current, this`showActions
      ensures Valid()
      ensures sessions == Rename(old(sessions), key, newName)
      ensures current == Some(newName) && showActions.None?
    {
      var renamed := Rename(sessions, key, newName);
      assert Sessions.Valid(renamed) && newName in renamed.chats;
      sessions := renamed;
      current := Some(newName);
      showActions := None;
    }

    /** New Chat: no session is current, so the next turn starts one. */
    method NewChat()
      requires Valid() && loggedIn
      modifies this`current
      ensures Valid()
      ensures current.None?
    {
      current := None;
    }

    /** When no session is current, `name` becomes current and is bound to
        an empty transcript, replacing any session already under it. */
    method StartIfNone(name: string)
      requires Valid() && loggedIn
      modifies this`sessions, this`current
      ensures Valid()
      ensures old(current).Some? ==> sessions == old(sessions) && current == old(current)
      ensures old(current).None? ==> current == Some(name) && sessions.chats == old(sessions.chats)[name := []]
      ensures old(current).None? ==>
        sessions.names == if name in old(sessions.chats) then old(sessions.names) else old(sessions.names) + [name]
    {
      if current.None? {
        current := Some(name);
        sessions := Assign(sessions, name, []);
      }
    }

    /** Appends one message to the current session's transcript. */
    method AppendToCurrent(m: Message)
      requires Valid() && loggedIn && current.Some?
      modifies this`sessions
      ensures Valid()
      ensures sessions.chats == old(sessions.chats)[current.value := old(sessions.chats[current.value]) + [m]]
      ensures sessions.names == old(sessions.names)
    {
      sessions := Assign(sessions, current.value, sessions.chats[current.value] + [m]);
    }

    /** A submitted chat input. An empty input does nothing. Otherwise, with
        no current session, one named after the input is started (replacing
        any session of that name); then the user message is appended, the
        model is asked with the transcript so far, and its reply is
        appended. No other session changes. */
    method ChatTurn(input: string, ai: Transcript -> string) returns (reply: Option<string>)
      requires Valid() && loggedIn
      modifies this`sessions, this`current
      ensures Valid()
      ensures input == "" ==> reply.None? && sessions == old(sessions) && current == old(current)
      ensures input != "" ==>
        var name := if old(current).Some? then old(current).value else SessionName(input);
        var before := if old(current).Some? then old(sessions.chats[name]) else [];
        var asked := before + [Message(User, input)];
        && current == Some(name)
        && reply == Some(ai(asked))
        && sessions.chats == old(sessions.chats)[name := asked + [Message(Assistant, ai(asked))]]
        && sessions.names == if name in old(sessions.chats) then old(sessions.names) else old(sessions.names) + [name]
    {
      if input == "" {
        reply := None;
      } else {
        var answer := Converse(input, ai);
        reply := Some(answer);
      }
    }

    /** The turn for a non-empty input, which starts a session when none is
        current and appends the question and the model's answer to it. */
    method Converse(input: string, ai: Transcript -> string) returns (answer: string)
      requires Valid() && loggedIn
      modifies this`sessions, this`current
      ensures Valid()
      ensures
        var name := if old(current).Some? then old(current).value else SessionName(input);
        var before := if old(current).Some? then old(sessions.chats[name]) else [];
        var asked := before + [Message(User, input)];
        && current == Some(name)
        && answer == ai(asked)
        && sessions.chats == old(sessions.chats)[name := asked + [Message(Assistant, ai(asked))]]
        && sessions.names == if name in old(sessions.chats) then old(sessions.names) else old(sessions.names) + [name]
    {
      ghost var was := sessions;
      ghost var name := if current.Some? then current.value else SessionName(input);
      ghost var before := if current.Some? then sessions.chats[name] else [];
      StartIfNone(SessionName(input));
      assert current == Some(name) && sessions.chats == was.chats[name := before];
      assert sessions.names == if name in was.chats then was.names else was.names + [name];
      ghost var asked := before + [Message(User, input)];
      AppendToCurrent(Message(User, input));
      UpdateTwice(was.chats, name, before, asked);
      answer := ai(sessions.chats[current.value]);
      assert answer == ai(asked);
      AppendToCurrent(Message(Assistant, answer));
      UpdateTwice(was.chats, name, asked, asked + [Message(Assistant, answer)]);
    }

    /** An uploaded screenshot: like a chat turn, with the session name
        `Screenshot Analysis`, a fixed user message and the canned reply. */
    method ScreenshotTurn()
      requires Valid() && loggedIn
      modifies this`sessions, this`current
      ensures Valid()
      ensures
        var name := if old(current).Some? then old(current).value else ScreenshotSession;
        var before := if old(current).Some? then old(sessions.chats[name]) else [];
        && current == Some(name)
        && sessions.chats == old(sessions.chats)[name := before + [Message(User, ScreenshotUserText)] + [Message(Assistant, ScreenshotReply)]]
        && sessions.names == if name in old(sessions.chats) then old(sessions.names) else old(sessions.names) + [name]
    {
      ghost var was := sessions;
      ghost var name := if current.Some? then current.value else ScreenshotSession;
      ghost var before := if current.Some? then sessions.chats[name] else [];
      StartIfNone(ScreenshotSession);
      assert current == Some(name) && sessions.chats == was.chats[name := before];
      assert sessions.names == if name in was.chats then was.names else was.names + [name];
      ghost var asked := before + [Message(User, ScreenshotUserText)];
      AppendToCurrent(Message(User, ScreenshotUserText));
      UpdateTwice(was.chats, name, before, asked);
      AppendToCurrent(Message(Assistant, ScreenshotReply));
      UpdateTwice(was.chats, name, asked, asked + [Message(Assistant, ScreenshotReply)]);
    }
  }

  // ----- runs through the steps -----

  /** A new account logs in with its own password, and not with another
      password whose digest differs. */
  method SignupThenLogin(storedUsers: map<string, string>, name: string, password: string, other: string,
                         hash: string -> string, load: string -> Table)
    returns (created: bool, wrongAccepted: bool, rightAccepted: bool)
    requires name !in storedUsers
    requires hash(other) != hash(password)
    requires Sessions.Valid(load(name))
    ensures created && !wrongAccepted && rightAccepted
  {
    var app := new AppState(storedUsers);
    created := app.Signup(name, password, hash);
    wrongAccepted := app.Login(name, other, hash, load);
    rightAccepted := app.Login(name, password, hash, load);
  }

  /** The reply the model gives in the first-chat run below. */
  const HelloReply: string := Annotation.FormattedReply("hi", 10, "- tip")

  /** The first-chat reply shows a score of 10 and the summary `- tip`. */
  lemma HelloReplyAnnotation()
    ensures Annotation.Annotate(HelloReply) == Annotation.Annotation(Some(10), Some("- tip"))
  {
    HelloReplyMarkers();
    Annotation.AnnotateFormatted("hi", 10, "- tip");
    TipTrimmed();
  }

  /** The first-chat summary has no whitespace to strip. */
  lemma TipTrimmed()
    ensures Text.Strip("- tip") == "- tip"
  {
    assert "- tip"[0] == '-' && "- tip"[4] == 'p';
    Text.StripTrimmed("- tip");
  }

  /** Neither marker occurs early in the first-chat reply. */
  lemma HelloReplyMarkers()
    ensures forall j: nat :: !Annotation.ScoreAt("**Reply:** " + "hi" + "\n\n", j)
    ensures forall j: nat :: !Text.OccursAt("**Reply:** " + "hi" + "\n\n" + Annotation.RiskMarker + Text.Digits(10) + "\n\n",
                                            Annotation.SummaryMarker, j)
  {
    var head := "**Reply:** " + "hi" + "\n\n";
    forall j: nat ensures !Annotation.ScoreAt(head, j) {
      assert |head| < |Annotation.RiskMarker| + 1;
    }
    assert Text.Digits(10) == "10" by { assert Text.Digits(1) == "1"; }
    var scored := head + Annotation.RiskMarker + Text.Digits(10) + "\n\n";
    assert Annotation.SummaryMarker[2] == 'P';
    assert 'P' !in scored;
    Text.AbsentChar(scored, Annotation.SummaryMarker, 2);
  }

  /** Sign up, log in with no stored sessions, and send `hello`: a session
      named `hello` holds the user message and the reply, and the reply
      shows its score and summary. */
  method FirstChat(storedUsers: map<string, string>, hash: string -> string, load: string -> Table)
    returns (names: seq<string>, transcript: Transcript, shown: Annotation.Annotation)
    requires "alice" !in storedUsers
    requires load("alice") == Empty
    ensures names == ["hello"]
    ensures transcript == [Message(User, "hello"), Message(Assistant, HelloReply)]
    ensures shown == Annotation.Annotation(Some(10), Some("- tip"))
  {
    var app := new AppState(storedUsers);
    var created := app.Signup("alice", "pw1", hash);
    var ok := app.Login("alice", "pw1", hash, load);
    assert ok && app.sessions == Empty && app.current.None?;
    assert SessionName("hello") == "hello";
    var ai: Transcript -> string := _ => HelloReply;
    ghost var asked: Transcript := [] + [Message(User, "hello")];
    assert asked == [Message(User, "hello")];
    var reply := app.ChatTurn("hello", ai);
    assert app.sessions.chats == Empty.chats["hello" := asked + [Message(Assistant, ai(asked))]];
    names := app.sessions.names;
    transcript := app.sessions.chats["hello"];
    assert transcript == [Message(User, "hello"), Message(Assistant, HelloReply)];
    HelloReplyAnnotation();
    shown := Annotation.Annotate(transcript[1].content);
  }

  /** After New Chat, an input whose session name is already taken starts
      that session over: its earlier transcript, however long, is gone. */
  method NewChatReplacesSession(storedUsers: map<string, string>, name: string, password: string,
                                hash: string -> string, load: string -> Table, ai: Transcript -> string)
    returns (before: Transcript, after: Transcript)
    requires name in storedUsers && storedUsers[name] == hash(password)
    requires Sessions.Valid(load(name)) && "hello" in load(name).chats
    ensures before == load(name).chats["hello"]
    ensures after == [Message(User, "hello"), Message(Assistant, ai([Message(User, "hello")]))]
  {
    var app := new AppState(storedUsers);
    var ok := app.Login(name, password, hash, load);
    assert ok && app.sessions == load(name);
    before := app.sessions.chats["hello"];
    app.NewChat();
    assert SessionName("hello") == "hello";
    ghost var asked: Transcript := [] + [Message(User, "hello")];
    assert asked == [Message(User, "hello")];
    var reply := app.ChatTurn("hello", ai);
    assert app.sessions.chats["hello"] == asked + [Message(Assistant, ai(asked))];
    after := app.sessions.chats["hello"];
  }

  /** An uploaded image stays in the uploader, so every page run repeats the
      screenshot step after the sidebar step of that run. A New Chat click
      starts `Screenshot Analysis` over, and the next run appends the canned
      pair again. */
  method UploadKeptAcrossRuns(storedUsers: map<string, string>, name: string, password: string,
                              hash: string -> string, load: string -> Table)
    returns (first: Transcript, second: Transcript)
    requires name in storedUsers && storedUsers[name] == hash(password)
    requires Sessions.Valid(load(name))
    ensures first == [Message(User, ScreenshotUserText), Message(Assistant, ScreenshotReply)]
    ensures second == first + first
  {
    var app := new AppState(storedUsers);
    var ok := app.Login(name, password, hash, load);
    assert ok;
    app.NewChat();
    var u, a := Message(User, ScreenshotUserText), Message(Assistant, ScreenshotReply);
    PairAppended(u, a);
    app.ScreenshotTurn();
    first := app.sessions.chats[ScreenshotSession];
    app.ScreenshotTurn();
    second := app.sessions.chats[ScreenshotSession];
  }

  /** Appending a message pair to nothing, then to itself. */
  lemma PairAppended(u: Message, a: Message)
    ensures [] + [u] + [a] == [u, a]
    ensures [u, a] + [u] + [a] == [u, a] + [u, a]
  {
  }
}
