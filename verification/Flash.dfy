/** The flash message store of the SQLite example: messages kept in the session. */
module Flash {
  import opened SessionValues
  import opened Sessions
  import opened Wrappers

  const FLASH_KEY := "_flash"

  datatype FlashError = GenericError

  function LoadedMessages(entries: State, key: string): Result<seq<FlashMessage>, FlashError> {
    if key !in entries then Ok([])
    else
      match entries[key]
      case Messages(messages) => Ok(messages)
      case _ => Err(GenericError)
  }

  /** Storing no messages removes earlier ones, and touches nothing when there are none. */
  function StoredMessages(session: SessionView, key: string, messages: seq<FlashMessage>): SessionView {
    if messages != [] then session.Inserted(key, Messages(messages))
    else if key in session.entries then session.Removed(key)
    else session
  }

  class SessionMessageStore {
    const key: string

    constructor ()
      ensures key == FLASH_KEY == "_flash"
    {
      key := FLASH_KEY;
    }

    method Load(session: Session) returns (result: Result<seq<FlashMessage>, FlashError>)
      ensures result == LoadedMessages(session.entries, key)
      ensures key !in session.entries ==> result == Ok([])
      ensures key in session.entries ==>
                match session.entries[key]
                case Messages(messages) => result == Ok(messages)
                case _ => result.Err?
    {
      if key !in session.entries {
        return Ok([]);
      }
      match session.entries[key] {
        case Messages(messages) => return Ok(messages);
        case _ => return Err(GenericError);
      }
    }

    method Store(session: Session, messages: seq<FlashMessage>)
      modifies session
      ensures session.View() == StoredMessages(old(session.View()), key, messages)
      ensures old(session.status) != Purged ==> LoadedMessages(session.entries, key) == Ok(messages)
    {
      if messages == [] {
        if key in session.entries {
          session.Remove(key);
        }
      } else {
        session.Insert(key, Messages(messages));
      }
      FlashRoundTrip(old(session.View()), key, messages);
    }
  }

  /** What is stored is what the next load shows, and no other entry changes. */
  lemma FlashRoundTrip(session: SessionView, key: string, messages: seq<FlashMessage>)
    ensures var after := StoredMessages(session, key, messages);
            && (!session.status.Purged? ==> LoadedMessages(after.entries, key) == Ok(messages))
            && (forall other | other != key ::
                  (other in after.entries <==> other in session.entries)
                  && (other in after.entries ==> after.entries[other] == session.entries[other]))
            && (session.status.Renewed? ==> after.status.Renewed?) && (session.status.Purged? ==> after == session)
  {
    assert session.status.Purged? && messages == [] ==> StoredMessages(session, key, messages) == session;
  }

  function StoredAll(session: SessionView, key: string, stores: seq<seq<FlashMessage>>): SessionView
    decreases |stores|
  {
    if stores == [] then session else StoredAll(StoredMessages(session, key, stores[0]), key, stores[1..])
  }

  /** Of any number of stores on a live session, only the last one shows. */
  lemma {:induction false} LastStoreShows(session: SessionView, key: string, stores: seq<seq<FlashMessage>>)
    requires stores != [] && !session.status.Purged?
    ensures LoadedMessages(StoredAll(session, key, stores).entries, key) == Ok(stores[|stores| - 1])
    decreases |stores|
  {
    var next := StoredMessages(session, key, stores[0]);
    if |stores| == 1 {
      assert StoredAll(next, key, stores[1..]) == next;
    } else {
      LastStoreShows(next, key, stores[1..]);
    }
  }

  /** Empty stores never mark a session that has no messages as changed. */
  lemma {:induction false} EmptyStoresAreInvisible(session: SessionView, key: string, stores: seq<seq<FlashMessage>>)
    requires key !in session.entries && forall messages | messages in stores :: messages == []
    ensures StoredAll(session, key, stores) == session
    decreases |stores|
  {
    if stores != [] {
      assert stores[0] in stores && forall messages | messages in stores[1..] :: messages in stores;
      EmptyStoresAreInvisible(session, key, stores[1..]);
    }
  }
}
