/**
 * Values the game client hands to the raid controller: players with an optional
 * name, actors, game states, chat message types, and the story-mode failure
 * pattern the controller searches chat messages for.
 */
module Host {

  datatype Option<T> = None | Some(value: T)

  /** A tile in the game world. */
  datatype WorldPoint = WorldPoint(x: int, y: int, plane: int)

  /** A player currently present in the scene; the client may report no name. */
  datatype Player = Player(name: Option<string>, location: WorldPoint)

  /** The subject of a death event: a player, or some other actor such as a monster. */
  datatype Actor = PlayerActor(player: Player) | OtherActor

  /** The client's game states; only `Loading` matters to the controller. */
  datatype GameState = LoginScreen | Loading | LoggedIn | Hopping | ConnectionLost

  /** Chat message types; only game messages are searched for the failure pattern. */
  datatype ChatMessageType = GameMessage | PublicChat | PrivateChat | ClanChat | OtherMessage

  /** The literal part of the pattern `You have failed.`. */
  const StoryModeFailedText: string := "You have failed"

  /** The characters that `.` does not match in a Java pattern compiled without flags. */
  predicate IsLineTerminator(c: char) {
    c == '\n' || c == '\r' || c == '\U{0085}' || c == '\U{2028}' || c == '\U{2029}'
  }

  /** `message` holds the literal text at position `i`. */
  predicate TextAt(message: string, i: int) {
    0 <= i && i + |StoryModeFailedText| <= |message| &&
    message[i..i + |StoryModeFailedText|] == StoryModeFailedText
  }

  /** The pattern matches the sixteen characters of `message` starting at `i`. */
  predicate MatchesAt(message: string, i: int) {
    TextAt(message, i) && i + |StoryModeFailedText| < |message| &&
    !IsLineTerminator(message[i + |StoryModeFailedText|])
  }

  /**
   * `find()`: the pattern matches somewhere in `message`. A match needs the
   * literal text somewhere, and one more character after it.
   */
  predicate StoryModeFailedFound(message: string): (b: bool)
    ensures b ==> |message| > |StoryModeFailedText|
    ensures b ==> exists i :: TextAt(message, i)
  {
    exists i | 0 <= i < |message| :: MatchesAt(message, i)
  }

  /** The game's own failure message is recognised. */
  lemma FailureMessageFound()
    ensures StoryModeFailedFound("You have failed.")
  {
    assert MatchesAt("You have failed.", 0);
  }

  /** The wildcard needs a character after the text: the bare text, and short messages, never match. */
  lemma ShortMessagesNotFound(message: string)
    requires |message| <= |StoryModeFailedText|
    ensures !StoryModeFailedFound(message)
  {
  }

  /** `find()` is a substring search: surrounding text does not hide a match. */
  lemma FoundInContext(prefix: string, message: string, suffix: string)
    requires StoryModeFailedFound(message)
    ensures StoryModeFailedFound(prefix + message + suffix)
  {
    var i :| 0 <= i < |message| && MatchesAt(message, i);
    var whole := prefix + message + suffix;
    var n := |StoryModeFailedText|;
    assert whole[|prefix| + i..|prefix| + i + n] == message[i..i + n];
    assert whole[|prefix| + i + n] == message[i + n];
    assert TextAt(whole, |prefix| + i);
    assert MatchesAt(whole, |prefix| + i);
  }

  /** A match needs the whole text: a message that never contains it is not a failure message. */
  lemma FoundNeedsText(message: string)
    requires forall i :: !TextAt(message, i)
    ensures !StoryModeFailedFound(message)
  {
  }
}
