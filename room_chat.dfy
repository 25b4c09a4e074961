/** The chat panel of a room on the client: the three state updaters driven by
    the hub (`chat_history`, `chat_message`, `typing`), the label naming who
    is typing, and the text box whose send and change handlers emit to the
    hub. The 1200 ms stop-typing timer is a flag saying whether one is
    outstanding; its firing is a separate step. */
module RoomChat {
  import opened Text
  import opened Wrappers
  import RoomHub

  type Entry = RoomHub.Entry

  /** What the panel sends to the hub. */
  datatype Emit =
    | ChatSendOut(room: string, user: string, message: string)
    | TypingOut(room: string, user: string, isTyping: bool)

  // ---------------------------------------------------------------------
  // Message list

  /** `chat_history`: the list is replaced by the history received. */
  function OnHistory(prev: seq<Entry>, history: seq<Entry>): (r: seq<Entry>)
    ensures |r| == |history| && forall i :: 0 <= i < |r| ==> r[i] == history[i]
  {
    history
  }

  /** `chat_message`: one entry is appended after the ones already shown. */
  function OnMessage(prev: seq<Entry>, entry: Entry): (r: seq<Entry>)
    ensures |r| == |prev| + 1 && r[|prev|] == entry && r[..|prev|] == prev
  {
    prev + [entry]
  }

  /** The list after receiving each of `es` as a `chat_message`, in order. */
  function Received(prev: seq<Entry>, es: seq<Entry>): seq<Entry>
    decreases |es|
  {
    if es == [] then prev else Received(OnMessage(prev, es[0]), es[1..])
  }

  /** Receiving messages one by one appends them all, in arrival order. */
  lemma {:induction false} ReceivedAppends(prev: seq<Entry>, es: seq<Entry>)
    ensures Received(prev, es) == prev + es
    decreases |es|
  {
    if es != [] {
      ReceivedAppends(prev + [es[0]], es[1..]);
      assert prev + [es[0]] + es[1..] == prev + es;
    }
  }

  /** A client that joins while the server holds `h` and then receives the
      messages `es` shows `h + es`; the server's history of the room is the
      last 50 of those, so it is always a suffix of what the client shows. */
  lemma ClientShowsServerHistory(prev: seq<Entry>, h: seq<Entry>, es: seq<Entry>)
    ensures Received(OnHistory(prev, h), es) == h + es
    ensures var shown := Received(OnHistory(prev, h), es);
      var kept := RoomHub.KeepLast(h + es);
      kept == shown[|shown| - |kept|..]
  {
    ReceivedAppends(h, es);
  }

  // ---------------------------------------------------------------------
  // Typing set: a JS `Set` of user names, in insertion order.

  predicate Distinct(users: seq<string>) {
    forall i, j :: 0 <= i < j < |users| ==> users[i] != users[j]
  }

  /** `next.delete(user)`. */
  function Remove(users: seq<string>, user: string): (r: seq<string>)
    ensures forall x :: x in r <==> x in users && x != user
    ensures user !in users ==> r == users
    ensures |r| <= |users|
    ensures Distinct(users) ==> Distinct(r)
  {
    if users == [] then []
    else if users[0] == user then Remove(users[1..], user)
    else
      var rest := Remove(users[1..], user);
      assert Distinct(users) ==> users[0] !in users[1..];
      [users[0]] + rest
  }

  /** `typing`: a copy of the set with the user added (at the end, when not
      already there) or, when the flag is false, removed. */
  function OnTyping(users: seq<string>, user: string, isTyping: bool): (r: seq<string>)
    ensures isTyping ==> user in r
    ensures !isTyping ==> user !in r
    ensures forall x :: x != user ==> (x in r <==> x in users)
    ensures isTyping && user in users ==> r == users
    ensures isTyping && user !in users ==> r == users + [user]
    ensures Distinct(users) ==> Distinct(r)
  {
    if isTyping then (if user in users then users else users + [user])
    else Remove(users, user)
  }

  lemma {:induction false} RemoveIdempotent(users: seq<string>, user: string)
    ensures Remove(Remove(users, user), user) == Remove(users, user)
  {
    var r := Remove(users, user);
    assert user !in r;
  }

  /** Deleting works name by name: on a concatenation it leaves what it
      leaves of each part, in order. */
  lemma {:induction false} RemoveConcat(a: seq<string>, b: seq<string>, user: string)
    ensures Remove(a + b, user) == Remove(a, user) + Remove(b, user)
    decreases |a|
  {
    if a == [] {
      assert [] + b == b;
    } else {
      assert (a + b)[1..] == a[1..] + b;
      RemoveConcat(a[1..], b, user);
    }
  }

  /** A one-name set loses its name exactly when it is the user's. */
  lemma RemoveSingle(x: string, user: string)
    ensures Remove([x], user) == if x == user then [] else [x]
  {
    assert [x][1..] == [];
  }

  /** In a set without duplicates, deleting the name at position i leaves
      the names before i followed by the names after i. */
  lemma RemoveAt(users: seq<string>, i: nat)
    requires Distinct(users) && i < |users|
    ensures Remove(users, users[i]) == users[..i] + users[i + 1..]
  {
    var user := users[i];
    var a, b := users[..i], users[i + 1..];
    assert users == (a + [user]) + b;
    assert user !in a by {
      forall k | 0 <= k < |a| ensures a[k] != user {
        assert a[k] == users[k];
      }
    }
    assert user !in b by {
      forall k | 0 <= k < |b| ensures b[k] != user {
        assert b[k] == users[i + 1 + k];
      }
    }
    RemoveConcat(a + [user], b, user);
    RemoveConcat(a, [user], user);
    RemoveSingle(user, user);
    assert Remove(a + [user], user) == a + [];
    assert a + [] == a;
  }

  /** A stop event removes the user from its place and keeps the order of
      everyone else, so the label's first two names are the first two that
      remain. */
  lemma OnTypingStopAt(users: seq<string>, i: nat)
    requires Distinct(users) && i < |users|
    ensures OnTyping(users, users[i], false) == users[..i] + users[i + 1..]
  {
    RemoveAt(users, i);
  }

  /** Repeating a typing event changes nothing more. */
  lemma OnTypingIdempotent(users: seq<string>, user: string, isTyping: bool)
    ensures OnTyping(OnTyping(users, user, isTyping), user, isTyping) == OnTyping(users, user, isTyping)
  {
    if !isTyping {
      RemoveIdempotent(users, user);
    }
  }

  /** Events about other users leave this user's membership alone, whatever
      their order. */
  lemma OnTypingOthers(users: seq<string>, a: string, b: string, fa: bool, fb: bool)
    requires a != b
    ensures var r := OnTyping(OnTyping(users, a, fa), b, fb);
      (a in r <==> fa) && (b in r <==> fb)
  {
  }

  /** The line under the messages: absent when nobody is typing; otherwise
      the first two names joined with ", ", then " and k others" when more
      than two are typing (k the number not named), then " typing...". */
  function TypingLabel(users: seq<string>): (r: Option<string>)
    ensures r.None? <==> users == []
    ensures 0 < |users| <= 2 ==> r == Some(Join(users, ", ") + " typing...")
    ensures |users| > 2 ==>
      r == Some(users[0] + ", " + users[1] + " and " + NatStr(|users| - 2) + " others typing...")
  {
    if |users| == 0 then None
    else
      var shown := users[..if |users| < 2 then |users| else 2];
      var count := if |users| > 2 then " and " + NatStr(|users| - 2) + " others" else "";
      if |users| <= 2 then
        assert shown == users && count == "";
        assert Join(shown, ", ") + count == Join(users, ", ");
        Some(Join(shown, ", ") + count + " typing...")
      else
        assert shown == [users[0], users[1]] && shown[1..] == [users[1]];
        assert Join(shown, ", ") == users[0] + ", " + users[1];
        var n := NatStr(|users| - 2);
        var expected := users[0] + ", " + users[1] + " and " + n + " others typing...";
        calc {
          Join(shown, ", ") + count + " typing...";
          (users[0] + ", " + users[1]) + (" and " + n + " others typing...");
          { assert " and " + n + " others typing..." == " and " + (n + " others typing..."); }
          expected;
        }
        Some(Join(shown, ", ") + count + " typing...")
  }

  /** The label names nobody past the second: two sets with the same first
      two names and the same size get the same label. */
  lemma TypingLabelNamesFirstTwo(u: seq<string>, v: seq<string>)
    requires |u| == |v| > 2 && u[0] == v[0] && u[1] == v[1]
    ensures TypingLabel(u) == TypingLabel(v)
  {
  }

  /** The count in the label reads back as the number of users not named. */
  lemma TypingLabelCount(users: seq<string>, a: string, b: string, rest: seq<string>)
    requires users == [a, b] + rest && rest != []
    ensures TypingLabel(users) == Some(a + ", " + b + " and " + NatStr(|rest|) + " others typing...")
    ensures DigitsValue(NatStr(|rest|)) == |users| - 2
  {
    assert users[0] == a && users[1] == b && |users| - 2 == |rest|;
    NatStrDigits(|rest|);
  }

  // ---------------------------------------------------------------------
  // Text box

  class ChatInput {
    const roomId: string
    const username: string
    /** The text box contents. */
    var text: string
    /** A stop-typing timer is outstanding. */
    var stopPending: bool

    constructor (roomId: string, username: string)
      ensures this.roomId == roomId && this.username == username
      ensures text == "" && !stopPending
    {
      this.roomId, this.username := roomId, username;
      text, stopPending := "", false;
    }

    /** `send`: white space alone sends nothing and keeps the text; anything
        else is sent trimmed, the box is cleared, and a stop-typing notice
        follows the message. The stop-typing timer is left as it was. */
    method Send() returns (out: seq<Emit>)
      modifies this
      ensures stopPending == old(stopPending)
      ensures AllSpace(old(text)) ==> out == [] && text == old(text)
      ensures !AllSpace(old(text)) ==>
        && text == ""
        && out == [ChatSendOut(roomId, username, Trim(old(text))), TypingOut(roomId, username, false)]
    {
      var msg := Trim(text);
      TrimEmpty(text);
      if msg == "" {
        return [];
      }
      out := [ChatSendOut(roomId, username, msg)];
      text := "";
      out := out + [TypingOut(roomId, username, false)];
    }

    /** `onKeyDown`: Enter without Shift sends (and suppresses the newline);
        every other key leaves everything to the text box. */
    method OnKeyDown(key: string, shift: bool) returns (prevented: bool, out: seq<Emit>)
      modifies this
      ensures prevented <==> key == "Enter" && !shift
      ensures !prevented ==> out == [] && text == old(text) && stopPending == old(stopPending)
      ensures prevented ==> stopPending == old(stopPending)
      ensures prevented && AllSpace(old(text)) ==> out == [] && text == old(text)
      ensures prevented && !AllSpace(old(text)) ==>
        && text == ""
        && out == [ChatSendOut(roomId, username, Trim(old(text))), TypingOut(roomId, username, false)]
    {
      prevented := key == "Enter" && !shift;
      if prevented {
        out := Send();
      } else {
        out := [];
      }
    }

    /** `onChange`: the box takes the new value, a typing notice goes out,
        and the stop-typing timer is restarted (any earlier one cleared). */
    method OnChange(value: string) returns (out: seq<Emit>)
      modifies this
      ensures text == value && stopPending
      ensures out == [TypingOut(roomId, username, true)]
    {
      text := value;
      out := [TypingOut(roomId, username, true)];
      stopPending := true;
    }

    /** The stop-typing timer fires: a stop-typing notice goes out. */
    method TimerFires() returns (out: seq<Emit>)
      modifies this
      ensures text == old(text) && !stopPending
      ensures old(stopPending) ==> out == [TypingOut(roomId, username, false)]
      ensures !old(stopPending) ==> out == []
    {
      if stopPending {
        out := [TypingOut(roomId, username, false)];
        stopPending := false;
      } else {
        out := [];
      }
    }
  }

  /** Typing `value` and pressing Enter: a typing notice, then (unless the
      value is white space alone) the trimmed message and a stop-typing
      notice; if the value holds more than white space the box ends empty. */
  method TypeAndEnter(roomId: string, username: string, value: string)
    returns (emitted: seq<Emit>, left: string)
    ensures AllSpace(value) ==> emitted == [TypingOut(roomId, username, true)] && left == value
    ensures !AllSpace(value) ==>
      && left == ""
      && emitted == [TypingOut(roomId, username, true), ChatSendOut(roomId, username, Trim(value)),
                     TypingOut(roomId, username, false)]
  {
    var box := new ChatInput(roomId, username);
    emitted := box.OnChange(value);
    var prevented, sent := box.OnKeyDown("Enter", false);
    emitted := emitted + sent;
    left := box.text;
  }
}
