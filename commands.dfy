/**
 * The `check-mods` and `list-mods` chat commands: each takes an optional
 * webhook URL, remembers a non-blank one in the configuration, and starts
 * its run with it.  Whether `new Uri` accepts a string is a parameter.
 */
module Commands {
  import opened Wrappers
  import opened Text

  const NoWebhookMessage := "No webhook provided, error when creating, or no mod version config webhook found!"
  const CheckedMessage := "Ran the update checker!"
  const ListedMessage := "Listed mods to webhook!"

  /** The handler's result; `Threw` when `new Uri` rejects the URL. */
  datatype Reply = Error(message: string) | Success(message: string) | Threw

  /** The reply, the webhook URL the run was started with, and the URL now stored. */
  datatype Outcome = Outcome(reply: Reply, launchedWith: Option<string>, stored: string)

  /**
   * What one command does with its argument (None when missing) and the URL
   * stored for it.  A run starts exactly when the argument is present,
   * non-blank and a valid URI, and then with that argument; a blank or
   * missing argument is an error and changes nothing; the stored URL only
   * ever changes to the argument, and a URI error leaves it unchanged.
   */
  function HandleWebhookCommand(arg: Option<string>, stored: string, validUri: string -> bool, done: string)
    : (o: Outcome)
    ensures o.launchedWith.Some? <==> !IsNullOrWhiteSpace(arg) && validUri(arg.value)
    ensures o.launchedWith.Some? ==>
              o.launchedWith == arg && o.stored == arg.value && o.reply == Success(done)
    ensures o.reply.Error? <==> IsNullOrWhiteSpace(arg)
    ensures o.reply.Error? ==> o.reply.message == NoWebhookMessage && o.stored == stored
    ensures o.reply == Threw <==> !IsNullOrWhiteSpace(arg) && !validUri(arg.value)
    ensures o.stored == stored || Some(o.stored) == arg
  {
    var webhookUrl := arg.GetOr("");
    if IsNullOrWhiteSpace(Some(webhookUrl)) then Outcome(Error(NoWebhookMessage), None, stored)
    else if !validUri(webhookUrl) then Outcome(Threw, None, stored)
    else Outcome(Success(done), Some(webhookUrl), webhookUrl)
  }

  /**
   * The URL stored by an earlier command never decides what a command does:
   * a missing argument is an error even when a URL is stored, although the
   * commands are described as using "the given, or last given" URL.
   */
  lemma StoredUrlNeverUsed(arg: Option<string>, stored1: string, stored2: string, validUri: string -> bool, done: string)
    ensures HandleWebhookCommand(arg, stored1, validUri, done).reply
         == HandleWebhookCommand(arg, stored2, validUri, done).reply
    ensures HandleWebhookCommand(arg, stored1, validUri, done).launchedWith
         == HandleWebhookCommand(arg, stored2, validUri, done).launchedWith
    ensures HandleWebhookCommand(None, stored1, validUri, done).reply == Error(NoWebhookMessage)
  {
  }

  /**
   * Repeating a command with the URL it just stored gives the same outcome
   * again.
   */
  lemma RepeatIsStable(arg: Option<string>, stored: string, validUri: string -> bool, done: string)
    ensures var o := HandleWebhookCommand(arg, stored, validUri, done);
      HandleWebhookCommand(arg, o.stored, validUri, done) == o
  {
  }

  /** `ModVersionConfig`: the two stored webhook URLs. */
  class ModVersionConfig {
    var checkWebhookUrl: string
    var listWebhookUrl: string

    constructor ()
      ensures checkWebhookUrl == "" && listWebhookUrl == ""
    {
      checkWebhookUrl := "";
      listWebhookUrl := "";
    }

    /** The `check-mods` handler; `launched` is the URL the update check runs with. */
    method CheckMods(arg: Option<string>, validUri: string -> bool) returns (reply: Reply, launched: Option<string>)
      modifies this
      ensures HandleWebhookCommand(arg, old(checkWebhookUrl), validUri, CheckedMessage)
           == Outcome(reply, launched, checkWebhookUrl)
      ensures listWebhookUrl == old(listWebhookUrl)
    {
      var webhookUrl := if arg.None? then "" else arg.value;
      var webhook: Option<string> := None;
      if !IsNullOrWhiteSpace(Some(webhookUrl)) {
        var uri := if arg.Some? then webhookUrl else checkWebhookUrl;
        if !validUri(uri) {
          return Threw, None;
        }
        webhook := Some(uri);
      }
      if !IsNullOrWhiteSpace(Some(webhookUrl)) {
        checkWebhookUrl := webhookUrl;
      }
      if webhook.None? {
        return Error(NoWebhookMessage), None;
      }
      return Success(CheckedMessage), webhook;
    }

    /** The `list-mods` handler; `launched` is the URL the list is sent to. */
    method ListMods(arg: Option<string>, validUri: string -> bool) returns (reply: Reply, launched: Option<string>)
      modifies this
      ensures HandleWebhookCommand(arg, old(listWebhookUrl), validUri, ListedMessage)
           == Outcome(reply, launched, listWebhookUrl)
      ensures checkWebhookUrl == old(checkWebhookUrl)
    {
      var webhookUrl := if arg.None? then "" else arg.value;
      var webhook: Option<string> := None;
      if !IsNullOrWhiteSpace(Some(webhookUrl)) {
        var uri := if arg.Some? then webhookUrl else listWebhookUrl;
        if !validUri(uri) {
          return Threw, None;
        }
        webhook := Some(uri);
      }
      if !IsNullOrWhiteSpace(Some(webhookUrl)) {
        listWebhookUrl := webhookUrl;
      }
      if webhook.None? {
        return Error(NoWebhookMessage), None;
      }
      return Success(ListedMessage), webhook;
    }
  }
}
