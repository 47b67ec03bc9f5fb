/**
 * src/commands/scl.rs, the message pipeline of `run_scl_command`: every walked
 * commit's message is trimmed of trailing carriage returns and line feeds
 * (failing the whole run if any message is not UTF-8), and the trimmed
 * messages are handed to the `conventional` parser, dropping those it
 * rejects. Unlike src/git.rs there is no strict mode here.
 *
 * The parser (`conventional::Commit::new(..).ok()`) is foreign code and is a
 * function parameter.
 */
module Scl {
  import opened Wrappers
  import opened Sequences
  import opened Revwalk
  import opened Conventional

  predicate IsLineEnd(c: char)
  {
    c == '\r' || c == '\n'
  }

  /**
   * `str::trim_end_matches(&['\r', '\n'])`: the longest prefix that does not
   * end with a carriage return or line feed, so that only such characters are
   * removed.
   */
  function TrimEnd(s: string): (t: string)
    ensures t <= s
    ensures |t| > 0 ==> !IsLineEnd(t[|t| - 1])
    ensures forall k :: |t| <= k < |s| ==> IsLineEnd(s[k])
  {
    if |s| > 0 && IsLineEnd(s[|s| - 1]) then TrimEnd(s[..|s| - 1]) else s
  }

  /** Trimming a trimmed message changes nothing. */
  lemma TrimEndIdempotent(s: string)
    ensures TrimEnd(TrimEnd(s)) == TrimEnd(s)
  {
  }

  /**
   * The three properties of `TrimEnd` pin it down: any prefix that does not end
   * with a line end, and beyond which there are only line ends, is the trimmed
   * message.
   */
  lemma TrimEndUnique(s: string, t: string)
    requires t <= s
    requires |t| > 0 ==> !IsLineEnd(t[|t| - 1])
    requires forall k :: |t| <= k < |s| ==> IsLineEnd(s[k])
    ensures t == TrimEnd(s)
  {
  }

  /** How the run fails: a walked commit whose message is not UTF-8. */
  datatype SclError = InvalidMessage(oid: Oid)

  /**
   * The `map` and `collect::<Result<Vec<&str>, _>>` stage: the trimmed
   * messages, one per walked commit and in walk order, or the error for the
   * first commit whose message is not UTF-8.
   */
  function TrimmedMessages(walk: seq<WalkedCommit>): (r: Result<seq<string>, SclError>)
    ensures r.Failure? <==> exists i :: 0 <= i < |walk| && walk[i].message.None?
    ensures r.Failure? ==>
      exists i :: 0 <= i < |walk| && walk[i].message.None? &&
        (forall j :: 0 <= j < i ==> walk[j].message.Some?) &&
        r.error == InvalidMessage(walk[i].oid)
    ensures r.Success? ==>
      |r.value| == |walk| &&
      forall i :: 0 <= i < |walk| ==> walk[i].message.Some? && r.value[i] == TrimEnd(walk[i].message.value)
  {
    if walk == [] then Success([])
    else
      var n := |walk| - 1;
      var front := walk[..n];
      assert forall j :: 0 <= j < n ==> front[j] == walk[j];
      match TrimmedMessages(front)
      case Failure(e) => Failure(e)
      case Success(messages) =>
        match walk[n].message
        case None => Failure(InvalidMessage(walk[n].oid))
        case Some(m) => Success(messages + [TrimEnd(m)])
  }

  /** `conventional::Commit::new(..).ok()` */
  type Parser = string -> Option<Commit>

  /**
   * The conventional commits of the walked range: those trimmed messages the
   * parser accepts, in walk order, unless some message is not UTF-8. The
   * run never yields more commits than it walked.
   */
  function SclCommits(walk: seq<WalkedCommit>, parse: Parser): (r: Result<seq<Commit>, SclError>)
    ensures r.Failure? <==> exists i :: 0 <= i < |walk| && walk[i].message.None?
    ensures r.Success? ==> |r.value| <= |walk|
  {
    match TrimmedMessages(walk)
    case Failure(e) => Failure(e)
    case Success(messages) =>
      FilterMapLength(messages, parse);
      Success(FilterMap(messages, parse))
  }

  /**
   * A message that is not UTF-8 ends the run before anything is parsed: the
   * outcome is the same whatever the parser would have said.
   */
  lemma FailsBeforeParsing(walk: seq<WalkedCommit>, parse: Parser, other: Parser)
    requires SclCommits(walk, parse).Failure?
    ensures SclCommits(walk, other) == SclCommits(walk, parse)
    ensures exists i :: 0 <= i < |walk| && walk[i].message.None? &&
              (forall j :: 0 <= j < i ==> walk[j].message.Some?) &&
              SclCommits(walk, parse).error == InvalidMessage(walk[i].oid)
  {
  }

  /**
   * The commits that survive are an order-preserving subsequence of the walk:
   * the k-th is what the parser makes of the trimmed message at the k-th of
   * increasing walk positions, every message the parser accepts is kept, and
   * the text handed to the parser never ends with a line end.
   */
  lemma KeepsParsedInWalkOrder(walk: seq<WalkedCommit>, parse: Parser)
    requires SclCommits(walk, parse).Success?
    ensures var r, messages := SclCommits(walk, parse).value, TrimmedMessages(walk).value;
      var p := Positions(messages, parse);
      && |messages| == |walk|
      && (forall i :: 0 <= i < |walk| ==>
            && walk[i].message.Some?
            && messages[i] == TrimEnd(walk[i].message.value)
            && (|messages[i]| > 0 ==> !IsLineEnd(messages[i][|messages[i]| - 1])))
      && |r| == |p|
      && (forall k :: 0 <= k < |p| ==> p[k] < |walk| && parse(TrimEnd(walk[p[k]].message.value)) == Some(r[k]))
      && (forall a, b :: 0 <= a < b < |p| ==> p[a] < p[b])
      && (forall i :: 0 <= i < |walk| && parse(TrimEnd(walk[i].message.value)).Some? ==> i in p)
  {
    var r, messages := SclCommits(walk, parse).value, TrimmedMessages(walk).value;
    var p := Positions(messages, parse);
    FilterMapPositions(messages, parse);
    forall i | 0 <= i < |walk|
      ensures |messages[i]| > 0 ==> !IsLineEnd(messages[i][|messages[i]| - 1])
    {
      assert messages[i] == TrimEnd(walk[i].message.value);
    }
    forall k | 0 <= k < |p|
      ensures parse(TrimEnd(walk[p[k]].message.value)) == Some(r[k])
    {
      assert messages[p[k]] == TrimEnd(walk[p[k]].message.value);
    }
    forall i | 0 <= i < |walk| && parse(TrimEnd(walk[i].message.value)).Some? ensures i in p {
      assert messages[i] == TrimEnd(walk[i].message.value);
    }
  }
}
