/**
 What the command engine sees of the Mattermost host: the invocation
 arguments, the channel lookup, the plugin key-value store, the configured
 welcome messages, and the record of what a command did (ephemeral posts,
 host calls, the store afterwards).
 */
module Host {
  import opened Options

  /** `model.ChannelType`: open, private, direct (one-to-one) and group channels. */
  datatype ChannelType = Open | Private | Direct | Group

  /** The outcome of `API.GetChannel`: the channel's type, or the error's text. */
  datatype ChannelLookup = Found(channelType: ChannelType) | LookupFailed(error: string)

  /** A configured welcome message; only its `TeamName` takes part in the commands modelled here. */
  datatype WelcomeMessage = WelcomeMessage(teamName: string)

  /** `model.CommandArgs`: the raw command line and the channel it was typed in. */
  datatype CommandArgs = CommandArgs(command: string, channelId: string)

  /** A call the plugin makes into the host API. */
  datatype Call =
    | GetChannel(channelId: string)
    | KVGet(key: string)
    | KVSet(key: string, value: string)
    | KVDelete(key: string)

  /**
   The host as one command sees it. `store` is the plugin key-value store;
   `welcomeMessages` is what `getWelcomeMessages` returns; `channel` is what
   `GetChannel` answers for the invoking channel; `getError`, `setError` and
   `deleteError` are the errors `KVGet`, `KVSet` and `KVDelete` report, if any.
   */
  datatype Host = Host(
    store: map<string, string>,
    welcomeMessages: seq<WelcomeMessage>,
    channel: ChannelLookup,
    getError: Option<string>,
    setError: Option<string>,
    deleteError: Option<string>)

  /** What a command did: the ephemeral posts in order, the host calls in order, and the store afterwards. */
  datatype Effect = Effect(posts: seq<string>, calls: seq<Call>, store: map<string, string>)

  /** The two places where the Go code indexes past the end of a slice and panics. */
  datatype Fault =
    | BlankCommand           // `split[0]` when the command line has no fields
    | MissingWelcomeMarker   // `SplitN(...)[1]` when the line lacks `set_channel_welcome`

  /** A command either runs to completion or panics after making `calls`. */
  datatype Execution = Completed(effect: Effect) | Crashed(fault: Fault, calls: seq<Call>)

  /** `welcomebotChannelWelcomeKey`: the store namespace for per-channel welcome messages. */
  const WelcomeKeyPrefix: string := ""

  /** The store key of a channel's welcome message. */
  function WelcomeKey(channelId: string): (key: string)
    ensures key == channelId
  {
    WelcomeKeyPrefix + channelId
  }

  /** Two store contents agree everywhere except perhaps at `key`. */
  ghost predicate SameExceptAt(before: map<string, string>, after: map<string, string>, key: string) {
    forall k :: k != key ==> (k in before <==> k in after) && (k in before ==> before[k] == after[k])
  }
}
