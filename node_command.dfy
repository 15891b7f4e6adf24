/**
  * The two pure helpers of src/main.rs that surround the event loop: the DHT
  * record key a service is provided and looked up under, and the classifier
  * that turns a line typed on the node's standard input into a command.
  */
module NodeCommand {
  import opened Utf8
  import opened Text

  const ServicePrefix: string := "service:"

  /** `service_key`: the record key is the UTF-8 bytes of `service:<name>`. */
  function ServiceKey(name: string): seq<Byte> {
    Encode(ServicePrefix + name)
  }

  /**
    * The key is the bytes of `service:` followed by the bytes of the name:
    * every service's key shares that prefix.
    */
  lemma ServiceKeyBytes(name: string)
    ensures ServiceKey(name) == Encode(ServicePrefix) + Encode(name)
    ensures ServiceKey(name)[|Encode(ServicePrefix)|..] == Encode(name)
  {
    EncodeConcat(ServicePrefix, name);
  }

  /** Different service names never share a record key. */
  lemma ServiceKeyInjective(a: string, b: string)
    requires ServiceKey(a) == ServiceKey(b)
    ensures a == b
  {
    EncodeInjective(ServicePrefix + a, ServicePrefix + b);
    assert a == (ServicePrefix + a)[|ServicePrefix|..];
    assert b == (ServicePrefix + b)[|ServicePrefix|..];
  }

  /** What `handle_command` does with a line. */
  datatype Command =
    | Send(peer: string, message: string)   // logs "Would send to <peer>: <message>"
    | List                                   // logs the peer count, prints each peer
    | Unknown                                // logs the usage hint

  /** `cmd.trim().split_whitespace()`. */
  function Parts(line: string): seq<string> {
    Tokens(Trim(line, IsRustSpace), IsRustSpace)
  }

  /**
    * The dispatch of `handle_command`: `send` with a peer and at least one
    * word of message, or `list` with anything after it.
    */
  function ParseCommand(line: string): Command {
    var parts := Parts(line);
    if |parts| >= 3 && parts[0] == "send" then Send(parts[1], Join(parts[2..], " "))
    else if |parts| >= 1 && parts[0] == "list" then List
    else Unknown
  }

  /**
    * The classification in terms of the line's whitespace-separated words:
    * Send exactly when the first of at least three words is `send`, carrying
    * the second word as the peer and the third word onwards joined by single
    * spaces, so that the message's own words are exactly those; List exactly when the first word is `list`; Unknown
    * otherwise.
    */
  lemma {:induction false} ParseCommandClassifies(line: string)
    ensures var w := Tokens(line, IsRustSpace);
      && (ParseCommand(line).Send? <==> |w| >= 3 && w[0] == "send")
      && (ParseCommand(line).Send? ==>
            && ParseCommand(line) == Send(w[1], Join(w[2..], " "))
            && Tokens(ParseCommand(line).message, IsRustSpace) == w[2..])
      && (ParseCommand(line) == List <==> |w| >= 1 && w[0] == "list")
      && (ParseCommand(line) == Unknown <==> !(|w| >= 3 && w[0] == "send") && !(|w| >= 1 && w[0] == "list"))
  {
    var w := Tokens(line, IsRustSpace);
    TokensOfTrim(line, IsRustSpace);
    assert Parts(line) == w;
    if |w| >= 3 && w[0] == "send" {
      TokensOfJoin(w[2..], IsRustSpace);
    }
  }

  /** An empty or whitespace-only line is an unknown command. */
  lemma BlankLineIsUnknown(line: string)
    requires Blank(line, IsRustSpace)
    ensures ParseCommand(line) == Unknown
  {
    TokensOfTrim(line, IsRustSpace);
    TokensEmptyIffBlank(line, IsRustSpace);
  }
}
