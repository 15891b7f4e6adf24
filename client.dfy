/**
  * The Python client of p2p_client.py: it reads the node's output to learn
  * the server's peer id, writes `send` commands to the node's standard
  * input, and turns interactive input into request messages. The lines
  * read, the text `json.dumps` produces and what the user types are passed
  * in; the subprocess, the sleeps and the terminal are outside the model.
  */
module Client {
  import opened Wrappers
  import opened Text
  import NodeCommand

  /** The text that announces the server in the node's output. */
  const Marker: string := "Found service provider:"

  /** Python's `str.split(sep)` with a non-empty separator. */
  function Split(s: string, sep: string): (parts: seq<string>)
    requires sep != []
    ensures |parts| >= 1
    decreases |s|
  {
    match IndexOf(s, sep)
    case None => [s]
    case Some(i) => [s[..i]] + Split(s[i + |sep|..], sep)
  }

  /** Splitting at the first occurrence of the separator. */
  lemma SplitAtFirst(s: string, sep: string, i: nat)
    requires sep != [] && IndexOf(s, sep) == Some(i)
    ensures Split(s, sep) == [s[..i]] + Split(s[i + |sep|..], sep)
  {
  }

  /** A text is what comes before an occurrence, the occurrence, and what follows. */
  lemma AroundOccurrence(s: string, m: string, i: nat)
    requires OccursAt(s, m, i)
    ensures s == s[..i] + m + s[i + |m|..]
  {
    assert s == s[..i] + s[i..i + |m|] + s[i + |m|..];
  }

  lemma JoinCons(a: string, ps: seq<string>, sep: string)
    requires |ps| >= 1
    ensures Join([a] + ps, sep) == a + sep + Join(ps, sep)
  {
    assert ([a] + ps)[1..] == ps;
  }

  /** Joining the pieces with the separator gives the text back. */
  lemma {:induction false} JoinSplit(s: string, sep: string)
    requires sep != []
    ensures Join(Split(s, sep), sep) == s
    decreases |s|
  {
    var r := IndexOf(s, sep);
    if r.Some? {
      var i := r.value;
      var rest := s[i + |sep|..];
      JoinSplit(rest, sep);
      SplitAtFirst(s, sep, i);
      JoinCons(s[..i], Split(rest, sep), sep);
      AroundOccurrence(s, sep, i);
    }
  }

  /** The text before the first occurrence of the separator does not hold it. */
  lemma PrefixBeforeFirst(s: string, sep: string, i: nat)
    requires sep != [] && IndexOf(s, sep) == Some(i)
    ensures IndexOf(s[..i], sep) == None
  {
    var p := s[..i];
    assert |p| == i;
    forall j | 0 <= j ensures !OccursAt(p, sep, j) {
      if j + |sep| <= i {
        assert p[j..j + |sep|] == s[j..j + |sep|];
        assert !OccursAt(s, sep, j);
      }
    }
  }

  /** No piece holds the separator. */
  predicate PiecesFree(ps: seq<string>, sep: string) {
    forall k :: 0 <= k < |ps| ==> IndexOf(ps[k], sep) == None
  }

  lemma PiecesFreeCons(p: string, ps: seq<string>, sep: string)
    requires IndexOf(p, sep) == None && PiecesFree(ps, sep)
    ensures PiecesFree([p] + ps, sep)
  {
    forall k | 0 <= k < |[p] + ps| ensures IndexOf(([p] + ps)[k], sep) == None {
      if k > 0 { assert ([p] + ps)[k] == ps[k - 1]; }
    }
  }

  /** The separator occurs in no piece. */
  lemma {:induction false} SplitPiecesFree(s: string, sep: string)
    requires sep != []
    ensures PiecesFree(Split(s, sep), sep)
    decreases |s|
  {
    match IndexOf(s, sep)
    case None =>
      assert Split(s, sep) == [s];
    case Some(i) =>
      PrefixBeforeFirst(s, sep, i);
      SplitPiecesFree(s[i + |sep|..], sep);
      SplitAtFirst(s, sep, i);
      PiecesFreeCons(s[..i], Split(s[i + |sep|..], sep), sep);
  }

  /**
    * The extraction in `read_rust_output`: a line holding the marker
    * announces the text after its first occurrence, up to the next, with
    * surrounding whitespace stripped.
    */
  function ProviderIdIn(output: string): Option<string> {
    if IndexOf(output, Marker).Some? then
      var parts := Split(output, Marker);
      if |parts| > 1 then Some(Trim(parts[1], IsPySpace)) else None
    else None
  }

  /**
    * A line announces a peer exactly when it holds the marker; the id is the
    * stripped text between the first occurrence and the next, or the end.
    */
  lemma ProviderIdBetweenMarkers(output: string)
    ensures IndexOf(output, Marker).None? ==> ProviderIdIn(output) == None
    ensures IndexOf(output, Marker).Some? ==>
      var rest := output[IndexOf(output, Marker).value + |Marker|..];
      var upTo := match IndexOf(rest, Marker) case None => |rest| case Some(j) => j;
      ProviderIdIn(output) == Some(Trim(rest[..upTo], IsPySpace))
  {
    if IndexOf(output, Marker).Some? {
      var rest := output[IndexOf(output, Marker).value + |Marker|..];
      SplitAtFirst(output, Marker, IndexOf(output, Marker).value);
      if IndexOf(rest, Marker).None? {
        assert rest[..|rest|] == rest;
      }
    }
  }

  /** The id one raw output line announces, if any: the line is stripped first. */
  function Announcement(raw: string): Option<string> {
    ProviderIdIn(Trim(raw, IsPySpace))
  }

  /** The value of the last `Some` in `found`, or `current` when there is none. */
  function Latest<T>(current: Option<T>, found: seq<Option<T>>): Option<T>
    decreases |found|
  {
    if found == [] then current
    else if found[|found| - 1].Some? then found[|found| - 1]
    else Latest(current, found[..|found| - 1])
  }

  lemma {:induction false} LatestOfNone<T>(current: Option<T>, found: seq<Option<T>>)
    requires forall i :: 0 <= i < |found| ==> found[i].None?
    ensures Latest(current, found) == current
    decreases |found|
  {
    if found != [] {
      var n := |found| - 1;
      assert forall i :: 0 <= i < n ==> found[..n][i] == found[i];
      LatestOfNone(current, found[..n]);
    }
  }

  lemma {:induction false} LatestIsLast<T>(current: Option<T>, found: seq<Option<T>>, k: nat)
    requires k < |found| && found[k].Some?
    requires forall i :: k < i < |found| ==> found[i].None?
    ensures Latest(current, found) == found[k]
    decreases |found|
  {
    var n := |found| - 1;
    if k < n {
      assert found[..n][k] == found[k];
      assert forall i :: k < i < n ==> found[..n][i] == found[i];
      LatestIsLast(current, found[..n], k);
    }
  }

  /** The announcement of each line, in order. */
  function Announcements(lines: seq<string>): (found: seq<Option<string>>)
    ensures |found| == |lines|
    ensures forall i :: 0 <= i < |lines| ==> found[i] == Announcement(lines[i])
  {
    seq(|lines|, i requires 0 <= i < |lines| => Announcement(lines[i]))
  }

  /** `server_peer_id` after the reader has handled `lines`, in order, starting from `current`. */
  function PeerIdAfter(current: Option<string>, lines: seq<string>): Option<string> {
    Latest(current, Announcements(lines))
  }

  /** Lines without the marker leave `server_peer_id` as it was. */
  lemma UnmarkedLinesKeepId(current: Option<string>, lines: seq<string>)
    requires forall i :: 0 <= i < |lines| ==> Announcement(lines[i]).None?
    ensures PeerIdAfter(current, lines) == current
  {
    LatestOfNone(current, Announcements(lines));
  }

  /** The last announcing line decides `server_peer_id`; earlier values are overwritten. */
  lemma LastAnnouncementWins(current: Option<string>, lines: seq<string>, k: nat)
    requires k < |lines| && Announcement(lines[k]).Some?
    requires forall i :: k < i < |lines| ==> Announcement(lines[i]).None?
    ensures PeerIdAfter(current, lines) == Announcement(lines[k])
  {
    LatestIsLast(current, Announcements(lines), k);
  }

  /** Python truthiness of `server_peer_id`: neither None nor "". */
  predicate IsSet(id: Option<string>) {
    id.Some? && id.value != []
  }

  /** The command `send_message` writes to the node. */
  function SendLine(id: string, json: string): string {
    "send " + id + " " + json + "\n"
  }

  class P2PClient {
    var serverPeerId: Option<string>
    /** What has been written to the node's standard input, command by command. */
    var written: seq<string>

    constructor ()
      ensures serverPeerId == None && written == []
    {
      serverPeerId := None;
      written := [];
    }

    /** `read_rust_output`: the lines the node prints until its output ends. */
    method ReadRustOutput(lines: seq<string>)
      modifies this`serverPeerId
      ensures serverPeerId == PeerIdAfter(old(serverPeerId), lines)
    {
      ghost var found := Announcements(lines);
      for i := 0 to |lines|
        invariant serverPeerId == Latest(old(serverPeerId), found[..i])
      {
        assert found[..i + 1][..i] == found[..i];
        var output := Trim(lines[i], IsPySpace);
        if IndexOf(output, Marker).Some? {
          var parts := Split(output, Marker);
          if |parts| > 1 {
            serverPeerId := Some(Trim(parts[1], IsPySpace));
          }
        }
      }
      assert found[..|lines|] == found;
    }

    /**
      * `send_message` with the text `json.dumps` made of the message. Without
      * a server id it waits once, during which the reader handles
      * `duringWait`; if there is still none, nothing is written.
      */
    method SendMessage(json: string, duringWait: seq<string>) returns (sent: bool)
      modifies this`serverPeerId, this`written
      ensures IsSet(old(serverPeerId)) ==> serverPeerId == old(serverPeerId)
      ensures !IsSet(old(serverPeerId)) ==> serverPeerId == PeerIdAfter(old(serverPeerId), duringWait)
      ensures sent == IsSet(serverPeerId)
      ensures written == old(written) + (if sent then [SendLine(serverPeerId.value, json)] else [])
    {
      if !IsSet(serverPeerId) {
        ReadRustOutput(duringWait);
        if !IsSet(serverPeerId) {
          return false;
        }
      }
      written := written + [SendLine(serverPeerId.value, json)];
      sent := true;
    }
  }

  /**
    * The node reads the command without its line terminator and, for a
    * peer id free of whitespace and JSON text free of line breaks (which
    * `json.dumps` escapes), classifies it as a send to that id whose
    * message is the JSON's words joined by single spaces (an unknown
    * command when the JSON is blank).
    */
  lemma SendLineParsed(id: string, json: string)
    requires id != [] && NoSpace(id, IsRustSpace)
    requires '\n' !in json
    ensures var line := SendLine(id, json);
      NodeCommand.ParseCommand(line[..|line| - 1]) ==
        if Tokens(json, IsRustSpace) == [] then NodeCommand.Unknown
        else NodeCommand.Send(id, Join(Tokens(json, IsRustSpace), " "))
  {
    var line := SendLine(id, json);
    var read := line[..|line| - 1];
    var ts := Tokens(json, IsRustSpace);
    SendLineWords(id, json);
    NodeCommand.ParseCommandClassifies(read);
    var w := ["send", id] + ts;
    assert w[0] == "send" && w[1] == id && w[2..] == ts;
    assert "send" != "list";
  }

  /** Without its terminator, the send line's words are `send`, the id, and the JSON's words. */
  lemma SendLineWords(id: string, json: string)
    requires id != [] && NoSpace(id, IsRustSpace)
    ensures var line := SendLine(id, json);
      Tokens(line[..|line| - 1], IsRustSpace) == ["send", id] + Tokens(json, IsRustSpace)
  {
    var line := SendLine(id, json);
    var rest := id + [' '] + json;
    assert line[..|line| - 1] == "send" + [' '] + rest;
    assert NoSpace("send", IsRustSpace);
    TokensAfterWord("send", ' ', rest, IsRustSpace);
    TokensAfterWord(id, ' ', json, IsRustSpace);
  }

  /**
    * Text whose only whitespace is single spaces between other characters,
    * such as `json.dumps` output whose string values hold no runs of spaces.
    */
  predicate SingleSpaced(s: string) {
    forall i :: 0 <= i < |s| && IsRustSpace(s[i]) ==>
      s[i] == ' ' && 0 < i < |s| - 1 && !IsRustSpace(s[i - 1]) && !IsRustSpace(s[i + 1])
  }

  /** Single-spaced text is rebuilt exactly by joining its words with single spaces. */
  lemma {:induction false} JoinTokensSingleSpaced(s: string)
    requires SingleSpaced(s)
    ensures Join(Tokens(s, IsRustSpace), " ") == s
    decreases |s|
  {
    if s != [] {
      var n := WordLength(s, IsRustSpace);
      if n == |s| {
        assert s[..n] == s;
        TokensOfWord(s, IsRustSpace);
      } else {
        var w, rest := s[..n], s[n + 1..];
        assert s == w + [' '] + rest;
        TokensAfterWord(w, ' ', rest, IsRustSpace);
        forall i | 0 <= i < |rest| && IsRustSpace(rest[i])
          ensures rest[i] == ' ' && 0 < i < |rest| - 1 && !IsRustSpace(rest[i - 1]) && !IsRustSpace(rest[i + 1])
        {
          assert rest[i] == s[n + 1 + i];
          if i > 0 { assert rest[i - 1] == s[n + i]; }
          if i + 1 < |rest| { assert rest[i + 1] == s[n + 2 + i]; }
        }
        JoinTokensSingleSpaced(rest);
        TokensEmptyIffBlank(rest, IsRustSpace);
        assert !IsRustSpace(rest[0]);
        var ts := Tokens(rest, IsRustSpace);
        assert ([w] + ts)[1..] == ts;
      }
    }
  }

  /** A single-spaced, non-empty JSON text reaches the node's parser unchanged. */
  lemma JsonDeliveredVerbatim(id: string, json: string)
    requires id != [] && NoSpace(id, IsRustSpace)
    requires json != [] && SingleSpaced(json)
    ensures var line := SendLine(id, json); NodeCommand.ParseCommand(line[..|line| - 1]) == NodeCommand.Send(id, json)
  {
    forall i | 0 <= i < |json| ensures json[i] != '\n' {
      if json[i] == '\n' { assert IsRustSpace(json[i]); }
    }
    SendLineParsed(id, json);
    JoinTokensSingleSpaced(json);
    TokensEmptyIffBlank(json, IsRustSpace);
    assert !IsRustSpace(json[0]);
  }

  /** The inputs that end interactive mode, in any letter case. */
  const QuitWords: seq<string> := ["quit", "exit", "q"]

  predicate IsQuit(s: string) {
    var lower := LowerAscii(s);
    lower == QuitWords[0] || lower == QuitWords[1] || lower == QuitWords[2]
  }

  /** The message dict built from one input; its timestamp is not modelled. */
  datatype Message = Message(kind: string, payload: string, from: string)

  function Request(payload: string): Message {
    Message("request", payload, "python_client")
  }

  /** What interactive mode makes of one typed line, once stripped. */
  datatype Typed = Skip | Quit | Payload(text: string)

  function Classify(input: string): Typed {
    var s := Trim(input, IsPySpace);
    if s == [] then Skip else if IsQuit(s) then Quit else Payload(s)
  }

  /** Each input classified, in order. */
  function Classified(inputs: seq<string>): (ts: seq<Typed>)
    ensures |ts| == |inputs|
    ensures forall i :: 0 <= i < |inputs| ==> ts[i] == Classify(inputs[i])
  {
    Map(Classify, inputs)
  }

  /** `f` applied to each element. */
  function Map<A, B>(f: A -> B, xs: seq<A>): (ys: seq<B>)
    ensures |ys| == |xs|
    ensures forall i :: 0 <= i < |xs| ==> ys[i] == f(xs[i])
  {
    seq(|xs|, i requires 0 <= i < |xs| => f(xs[i]))
  }

  /** Mapping a concatenation maps each part. */
  lemma MapConcat<A, B>(f: A -> B, a: seq<A>, b: seq<A>)
    ensures Map(f, a + b) == Map(f, a) + Map(f, b)
  {
    var l, r := Map(f, a + b), Map(f, a) + Map(f, b);
    forall i | 0 <= i < |a + b| ensures l[i] == r[i] {
      if i < |a| {
        assert (a + b)[i] == a[i];
      } else {
        assert (a + b)[i] == b[i - |a|];
      }
    }
  }

  /** The requests for classified lines: skipped lines give none, the first quit ends the list. */
  function Collect(ts: seq<Typed>): seq<Message>
    decreases |ts|
  {
    if ts == [] then []
    else
      match ts[0]
      case Skip => Collect(ts[1..])
      case Quit => []
      case Payload(s) => [Request(s)] + Collect(ts[1..])
  }

  /**
    * The messages interactive mode hands to `send_message` for the lines
    * typed: each line stripped, empty ones skipped, a quit word ending it.
    */
  function Requests(inputs: seq<string>): seq<Message> {
    Collect(Classified(inputs))
  }

  /**
    * The requests from line `i` on are those of line `i` followed by those
    * of the lines after it: nothing for a skipped line, nothing at all from
    * a quit word on, one request for a payload.
    */
  lemma CollectFrom(inputs: seq<string>, i: nat, sent: seq<Message>)
    requires i < |inputs|
    requires sent + Collect(Classified(inputs)[i..]) == Requests(inputs)
    ensures Classify(inputs[i]).Skip? ==> sent + Collect(Classified(inputs)[i + 1..]) == Requests(inputs)
    ensures Classify(inputs[i]).Quit? ==> sent == Requests(inputs)
    ensures Classify(inputs[i]).Payload? ==>
      (sent + [Request(Classify(inputs[i]).text)]) + Collect(Classified(inputs)[i + 1..]) == Requests(inputs)
  {
    var ts := Classified(inputs);
    assert ts[i..][0] == ts[i];
    assert ts[i..][1..] == ts[i + 1..];
  }

  /** `interactive_mode`, reading lines until a quit word or the end of input. */
  method InteractiveMode(inputs: seq<string>) returns (sent: seq<Message>)
    ensures sent == Requests(inputs)
  {
    ghost var ts := Classified(inputs);
    sent := [];
    var i := 0;
    while i < |inputs|
      invariant i <= |inputs|
      invariant sent + Collect(ts[i..]) == Requests(inputs)
    {
      CollectFrom(inputs, i, sent);
      var userInput := Trim(inputs[i], IsPySpace);
      if userInput == [] {
        // an empty line is skipped
      } else if IsQuit(userInput) {
        break;
      } else {
        sent := sent + [Request(userInput)];
      }
      i := i + 1;
    }
  }

  lemma {:induction false} CollectPayloads(ts: seq<Typed>)
    ensures forall m :: m in Collect(ts) ==> m == Request(m.payload) && Payload(m.payload) in ts
    decreases |ts|
  {
    if ts != [] {
      CollectPayloads(ts[1..]);
      assert forall t :: t in ts[1..] ==> t in ts;
    }
  }

  /**
    * Every message sent is a request from the Python client whose payload is
    * stripped, non-empty text that is not a quit word.
    */
  lemma RequestsWellFormed(inputs: seq<string>)
    ensures forall m :: m in Requests(inputs) ==>
      && m.kind == "request" && m.from == "python_client"
      && m.payload != [] && !IsQuit(m.payload)
      && Trim(m.payload, IsPySpace) == m.payload
  {
    var ts := Classified(inputs);
    CollectPayloads(ts);
    forall m | m in Requests(inputs)
      ensures m.payload != [] && !IsQuit(m.payload) && Trim(m.payload, IsPySpace) == m.payload
    {
      var i :| 0 <= i < |ts| && ts[i] == Payload(m.payload);
      PayloadStripped(inputs[i]);
    }
  }

  /** A payload is the stripped line, non-empty, not a quit word, and unchanged by stripping again. */
  lemma PayloadStripped(input: string)
    requires Classify(input).Payload?
    ensures var p := Classify(input).text; p != [] && !IsQuit(p) && Trim(p, IsPySpace) == p
  {
    TrimIdempotent(input, IsPySpace);
  }

  lemma {:induction false} CollectStopsAtQuit(pre: seq<Typed>, post: seq<Typed>)
    ensures Collect(pre + [Quit] + post) == Collect(pre)
    decreases |pre|
  {
    var ts := pre + [Quit] + post;
    if pre == [] {
      assert ts[0] == Quit;
    } else {
      assert ts[0] == pre[0];
      assert ts[1..] == pre[1..] + [Quit] + post;
      CollectStopsAtQuit(pre[1..], post);
    }
  }

  /** A quit word is never empty. */
  lemma QuitNonEmpty(s: string)
    requires IsQuit(s)
    ensures s != []
  {
    assert |LowerAscii(s)| == |s|;
  }

  /** Whatever is typed after a quit word is never sent. */
  lemma NothingAfterQuit(pre: seq<string>, q: string, post: seq<string>)
    requires IsQuit(Trim(q, IsPySpace))
    ensures Requests(pre + [q] + post) == Requests(pre)
  {
    QuitNonEmpty(Trim(q, IsPySpace));
    assert Classified([q]) == [Quit];
    MapConcat(Classify, pre, [q]);
    MapConcat(Classify, pre + [q], post);
    CollectStopsAtQuit(Classified(pre), Classified(post));
  }

  /** A skipped line contributes nothing wherever it sits. */
  lemma {:induction false} CollectSkip(pre: seq<Typed>, post: seq<Typed>)
    ensures Collect(pre + [Skip] + post) == Collect(pre + post)
    decreases |pre|
  {
    var ts := pre + [Skip] + post;
    if pre == [] {
      assert ts[0] == Skip && ts[1..] == post;
      assert pre + post == post;
    } else {
      assert ts[0] == pre[0] && ts[1..] == pre[1..] + [Skip] + post;
      assert (pre + post)[0] == pre[0] && (pre + post)[1..] == pre[1..] + post;
      CollectSkip(pre[1..], post);
    }
  }

  /** Lines with no quit among them contribute their requests, and the lines after them theirs. */
  lemma {:induction false} CollectQuitFree(pre: seq<Typed>, post: seq<Typed>)
    requires forall i :: 0 <= i < |pre| ==> !pre[i].Quit?
    ensures Collect(pre + post) == Collect(pre) + Collect(post)
    decreases |pre|
  {
    if pre == [] {
      assert pre + post == post;
    } else {
      assert (pre + post)[0] == pre[0] && (pre + post)[1..] == pre[1..] + post;
      CollectQuitFree(pre[1..], post);
      if pre[0].Payload? {
        var r := Request(pre[0].text);
        assert Collect(pre + post) == [r] + (Collect(pre[1..]) + Collect(post));
        assert Collect(pre) == [r] + Collect(pre[1..]);
      }
    }
  }

  /** A blank line is skipped: it changes nothing that is handed on. */
  lemma BlankLineSkipped(pre: seq<string>, b: string, post: seq<string>)
    requires Blank(b, IsPySpace)
    ensures Requests(pre + [b] + post) == Requests(pre + post)
  {
    TrimEmptyIffBlank(b, IsPySpace);
    ClassifiedAround(pre, b, post);
    MapConcat(Classify, pre, post);
    CollectSkip(Classified(pre), Classified(post));
  }

  /** A payload after quit-free lines gives its request between theirs and those of what follows. */
  lemma CollectPayloadAt(p: seq<Typed>, t: string, q: seq<Typed>)
    requires forall i :: 0 <= i < |p| ==> !p[i].Quit?
    ensures Collect(p + [Payload(t)] + q) == Collect(p) + [Request(t)] + Collect(q)
  {
    assert p + [Payload(t)] + q == p + ([Payload(t)] + q);
    CollectQuitFree(p, [Payload(t)] + q);
    assert ([Payload(t)] + q)[1..] == q;
  }

  /** The classified lines of `pre`, one line, and `post`. */
  lemma ClassifiedAround(pre: seq<string>, x: string, post: seq<string>)
    ensures Classified(pre + [x] + post) == Classified(pre) + [Classify(x)] + Classified(post)
  {
    assert Classified([x]) == [Classify(x)];
    MapConcat(Classify, pre, [x]);
    MapConcat(Classify, pre + [x], post);
  }

  /**
    * A line that is neither blank nor a quit word, typed while no quit word
    * has been typed, is handed on as one request carrying its stripped text,
    * after the requests of the lines before it and before those of the
    * lines after it.
    */
  lemma PayloadLineSent(pre: seq<string>, x: string, post: seq<string>)
    requires forall i :: 0 <= i < |pre| ==> !Classify(pre[i]).Quit?
    requires !Blank(x, IsPySpace) && !IsQuit(Trim(x, IsPySpace))
    ensures Requests(pre + [x] + post) == Requests(pre) + [Request(Trim(x, IsPySpace))] + Requests(post)
  {
    TrimEmptyIffBlank(x, IsPySpace);
    var t := Trim(x, IsPySpace);
    assert Classify(x) == Payload(t);
    ClassifiedAround(pre, x, post);
    CollectPayloadAt(Classified(pre), t, Classified(post));
  }
}
