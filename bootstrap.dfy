/**
 * `initMongo`: connect to the store, and after every failure log a message,
 * wait a second and try again, without limit; once connected, hand back the
 * `notes` collection of the configured database.
 */
module Bootstrap {
  import opened Wrappers

  /** What one `client.connect()` attempt does: resolve or reject. */
  datatype ConnectOutcome = Connected | Failed

  /** A handle on one collection of one database. */
  datatype Collection = Collection(dbName: string, name: string)

  /** The two console lines `initMongo` writes. */
  datatype LogLine = InitMessage | RetryMessage

  function Text(line: LogLine): string {
    match line
    case InitMessage => "Initialising MongoDB..."
    case RetryMessage => "Error connecting to MongoDB, retrying in 1 second"
  }

  const NotesCollection: string := "notes"

  /** The console lines of `k` failed attempts: each announces itself, then reports its failure. */
  function RetryLog(k: nat): (log: seq<LogLine>)
    ensures |log| == 2 * k
    ensures forall i :: 0 <= i < |log| ==> log[i] == (if i % 2 == 0 then InitMessage else RetryMessage)
  {
    if k == 0 then [] else RetryLog(k - 1) + [InitMessage, RetryMessage]
  }

  /** `k` failed attempts log the retry message exactly `k` times, and announce themselves `k` times. */
  lemma {:induction false} RetryLogCounts(k: nat)
    ensures multiset(RetryLog(k))[RetryMessage] == k
    ensures multiset(RetryLog(k))[InitMessage] == k
  {
    if k > 0 {
      RetryLogCounts(k - 1);
      assert multiset(RetryLog(k)) == multiset(RetryLog(k - 1)) + multiset{InitMessage, RetryMessage};
    }
  }

  /**
   * `initMongo` against the successive results of `connect`, the recursion
   * written as a loop that counts failures. `None` means the outcomes ran out
   * before a connection was made: the program would still be retrying.
   */
  method InitMongo(dbName: string, outcomes: seq<ConnectOutcome>)
      returns (db: Option<Collection>, failures: nat, log: seq<LogLine>)
    ensures failures <= |outcomes|
    ensures forall j :: 0 <= j < failures ==> outcomes[j] == Failed
    ensures db.Some? <==> failures < |outcomes|
    ensures db.Some? ==> outcomes[failures] == Connected && db.value == Collection(dbName, NotesCollection)
    ensures log == RetryLog(failures) + (if db.Some? then [InitMessage] else [])
    ensures multiset(log)[RetryMessage] == failures
  {
    failures := 0;
    log := [];
    RetryLogCounts(0);
    while failures < |outcomes|
      invariant failures <= |outcomes|
      invariant forall j :: 0 <= j < failures ==> outcomes[j] == Failed
      invariant log == RetryLog(failures)
    {
      log := log + [InitMessage];
      if outcomes[failures] == Connected {
        RetryLogCounts(failures);
        assert multiset(log) == multiset(RetryLog(failures)) + multiset{InitMessage};
        return Some(Collection(dbName, NotesCollection)), failures, log;
      }
      log := log + [RetryMessage];
      failures := failures + 1;
    }
    RetryLogCounts(failures);
    db := None;
  }

  /** If the first `k` attempts fail and attempt `k + 1` succeeds, the retry message is logged exactly `k` times before the collection is returned. */
  method ConnectAfterFailures(dbName: string, outcomes: seq<ConnectOutcome>, k: nat)
      returns (db: Option<Collection>, retries: nat)
    requires k < |outcomes| && outcomes[k] == Connected
    requires forall j :: 0 <= j < k ==> outcomes[j] == Failed
    ensures db == Some(Collection(dbName, NotesCollection))
    ensures retries == k
  {
    var failures, log;
    db, failures, log := InitMongo(dbName, outcomes);
    retries := multiset(log)[RetryMessage];
  }
}
