/**
 The command runner of the fish REPL driver (virtualfish/test/repl.py, `Fish.run`).

 A session is seen through its three pipes. `stdin` is every byte the driver has
 queued for the child so far; `stdout` and `stderr` are the child's output that the
 driver has not consumed yet. One run queues the command and one sentinel, then
 takes a frame from stdout, a frame from stderr and a second frame from stdout,
 and reads that last frame as the exit status.
 */
module Runner {
  import opened Wrappers
  import opened Frames
  import Status

  datatype Session = Session(stdin: seq<byte>, stdout: seq<byte>, stderr: seq<byte>)

  /** What one run returns to its caller: standard output, standard error, status. */
  datatype CommandResult = CommandResult(output: seq<byte>, error: seq<byte>, status: int)

  /** The frame a run is waiting for. */
  datatype Phase = AwaitingStdout | AwaitingStderr | AwaitingStatus

  datatype RunOutcome =
    | Done(result: CommandResult, next: Session)
      /** The awaited frame never gets its sentinel: the run waits forever. */
    | Blocked(phase: Phase)
      /** `int()` rejects the status frame and raises ValueError; `next` is the
          session as the run leaves it, all three frames consumed. */
    | BadStatus(frame: seq<byte>, next: Session)

  /** The bytes queued for the child for one command: the command, then one sentinel. */
  function Encode(cmd: seq<byte>): seq<byte> {
    cmd + [Sentinel]
  }

  /** The REPL reading its standard input gets back exactly the command, as long as
      the command itself holds no sentinel. */
  lemma {:induction false} CommandRoundTrip(cmd: seq<byte>, later: seq<byte>)
    requires Sentinel !in cmd
    ensures ReadFrame(Encode(cmd) + later) == Frame(cmd, later)
  {
    FrameRoundTrip(cmd, later);
  }

  /** Two frames read in turn off one stream account for all of it up to the rest. */
  lemma TwoFrames(q: seq<byte>)
    requires ReadFrame(q).Frame? && ReadFrame(ReadFrame(q).rest).Frame?
    ensures var first := ReadFrame(q); var second := ReadFrame(first.rest);
            q == first.payload + [Sentinel] + second.payload + [Sentinel] + second.rest
  {
    var first := ReadFrame(q);
    var second := ReadFrame(first.rest);
    var a, b := first.payload + [Sentinel], second.payload + [Sentinel];
    assert q == a + first.rest;
    assert first.rest == b + second.rest;
    Associative(a, b, second.rest);
    Associative(a, second.payload, [Sentinel]);
  }

  /** One call of `run` on session `s`. */
  function Run(s: Session, cmd: seq<byte>): (r: RunOutcome)
    ensures (r.Done? || r.BadStatus?) ==> r.next.stdin == s.stdin + cmd + [Sentinel]
    ensures r.Done? ==> Sentinel !in r.result.output && Sentinel !in r.result.error
    ensures r.Done? ==> s.stderr == r.result.error + [Sentinel] + r.next.stderr
    ensures r.Done? ==> exists sf ::
              && Status.ParseStatus(sf) == Some(r.result.status)
              && s.stdout == r.result.output + [Sentinel] + sf + [Sentinel] + r.next.stdout
    ensures r.BadStatus? ==> Status.ParseStatus(r.frame).None? && Sentinel !in r.frame
    ensures r == Blocked(AwaitingStdout) <==> Sentinel !in s.stdout
    ensures r == Blocked(AwaitingStderr) <==> Sentinel in s.stdout && Sentinel !in s.stderr
    ensures r == Blocked(AwaitingStatus) <==>
              ReadFrame(s.stdout).Frame? && Sentinel in s.stderr && Sentinel !in ReadFrame(s.stdout).rest
  {
    var out := ReadFrame(s.stdout);
    if out.Pending? then Blocked(AwaitingStdout)
    else
      var err := ReadFrame(s.stderr);
      if err.Pending? then Blocked(AwaitingStderr)
      else
        var st := ReadFrame(out.rest);
        if st.Pending? then Blocked(AwaitingStatus)
        else
          var status := Status.ParseStatus(st.payload);
          var next := Session(s.stdin + Encode(cmd), st.rest, err.rest);
          assert next.stdin == s.stdin + cmd + [Sentinel] by {
            Associative(s.stdin, cmd, [Sentinel]);
          }
          if status.None? then BadStatus(st.payload, next)
          else
            TwoFrames(s.stdout);
            Done(CommandResult(out.payload, err.payload, status.value), next)
  }

  /** Once stdout holds an output frame and a status frame and stderr an error
      frame, the run consumes exactly those three frames and appends the command to
      stdin. It returns the frames when `int()` accepts the status frame, and raises
      ValueError on that frame otherwise. */
  lemma RunFrames(s: Session, cmd: seq<byte>, o: seq<byte>, sf: seq<byte>, e: seq<byte>,
                  laterOut: seq<byte>, laterErr: seq<byte>)
    requires Sentinel !in o && Sentinel !in sf && Sentinel !in e
    requires s.stdout == o + [Sentinel] + sf + [Sentinel] + laterOut
    requires s.stderr == e + [Sentinel] + laterErr
    ensures var next := Session(s.stdin + Encode(cmd), laterOut, laterErr);
            && (Status.ParseStatus(sf).Some? ==>
                  Run(s, cmd) == Done(CommandResult(o, e, Status.ParseStatus(sf).value), next))
            && (Status.ParseStatus(sf).None? ==> Run(s, cmd) == BadStatus(sf, next))
  {
    var stdout1 := sf + [Sentinel] + laterOut;
    assert s.stdout == o + [Sentinel] + stdout1 by {
      var a, b := o + [Sentinel], sf + [Sentinel];
      Associative(a, sf, [Sentinel]);
      assert o + [Sentinel] + sf + [Sentinel] == a + b;
      Associative(a, b, laterOut);
    }
    assert ReadFrame(s.stdout) == Frame(o, stdout1) by {
      FrameRoundTrip(o, stdout1);
    }
    assert ReadFrame(s.stderr) == Frame(e, laterErr) by {
      FrameRoundTrip(e, laterErr);
    }
    assert ReadFrame(stdout1) == Frame(sf, laterOut) by {
      FrameRoundTrip(sf, laterOut);
    }
  }

  /** A command's result as the REPL side answers it is free of sentinels. */
  predicate WellFormed(c: CommandResult) {
    Sentinel !in c.output && Sentinel !in c.error
  }

  /** What the REPL writes to its standard output for one command: the output frame,
      then the status frame. */
  function StdoutReply(c: CommandResult): seq<byte> {
    c.output + [Sentinel] + Status.Render(c.status) + [Sentinel]
  }

  /** What the REPL writes to its standard error for one command. */
  function StderrReply(c: CommandResult): seq<byte> {
    c.error + [Sentinel]
  }

  /** A run against a well-formed reply returns exactly that reply and consumes
      exactly its bytes from each stream. */
  lemma RunReply(s: Session, cmd: seq<byte>, c: CommandResult, laterOut: seq<byte>, laterErr: seq<byte>)
    requires WellFormed(c)
    requires s.stdout == StdoutReply(c) + laterOut
    requires s.stderr == StderrReply(c) + laterErr
    ensures Run(s, cmd) == Done(c, Session(s.stdin + Encode(cmd), laterOut, laterErr))
  {
    var sf := Status.Render(c.status);
    Status.RenderNoSentinel(c.status);
    Status.ParseRender(c.status);
    RunFrames(s, cmd, c.output, sf, c.error, laterOut, laterErr);
  }

  /** Several calls of `run` in turn, each on the session the previous one left. */
  datatype Transcript =
    | Completed(results: seq<CommandResult>, final: Session)
      /** Call number `index` (from 0) did not complete. */
    | Stopped(index: nat, outcome: RunOutcome)

  function RunAll(s: Session, cmds: seq<seq<byte>>): (t: Transcript)
    ensures t.Completed? ==> |t.results| == |cmds|
    ensures t.Completed? ==> t.final.stdin == s.stdin + Terminate(cmds)
    ensures t.Completed? ==> |t.final.stdout| <= |s.stdout| && |t.final.stderr| <= |s.stderr|
    ensures t.Stopped? ==> t.index < |cmds| && !t.outcome.Done?
    decreases |cmds|
  {
    if |cmds| == 0 then Completed([], s)
    else
      var first := Run(s, cmds[0]);
      if !first.Done? then Stopped(0, first)
      else
        var others := RunAll(first.next, cmds[1..]);
        if others.Stopped? then Stopped(others.index + 1, others.outcome)
        else
          assert others.final.stdin == s.stdin + Terminate(cmds) by {
            assert first.next.stdin == s.stdin + Encode(cmds[0]);
            assert Terminate(cmds) == Encode(cmds[0]) + Terminate(cmds[1..]);
            Associative(s.stdin, Encode(cmds[0]), Terminate(cmds[1..]));
          }
          Completed([first.result] + others.results, others.final)
  }

  function StdoutReplies(cs: seq<CommandResult>): seq<byte> {
    if |cs| == 0 then [] else StdoutReply(cs[0]) + StdoutReplies(cs[1..])
  }

  function StderrReplies(cs: seq<CommandResult>): seq<byte> {
    if |cs| == 0 then [] else StderrReply(cs[0]) + StderrReplies(cs[1..])
  }

  /** No cross-attribution: when the REPL answers K commands with K well-formed
      replies, the k-th call returns exactly the k-th reply, and only what comes
      after the last reply is left unread. */
  lemma {:induction false} RunAllReplies(s: Session, cmds: seq<seq<byte>>, cs: seq<CommandResult>,
                                         laterOut: seq<byte>, laterErr: seq<byte>)
    requires |cmds| == |cs|
    requires forall i :: 0 <= i < |cs| ==> WellFormed(cs[i])
    requires s.stdout == StdoutReplies(cs) + laterOut
    requires s.stderr == StderrReplies(cs) + laterErr
    ensures RunAll(s, cmds) == Completed(cs, Session(s.stdin + Terminate(cmds), laterOut, laterErr))
    decreases |cmds|
  {
    if |cmds| > 0 {
      var out1 := StdoutReplies(cs[1..]) + laterOut;
      var err1 := StderrReplies(cs[1..]) + laterErr;
      assert s.stdout == StdoutReply(cs[0]) + out1 by {
        Associative(StdoutReply(cs[0]), StdoutReplies(cs[1..]), laterOut);
      }
      assert s.stderr == StderrReply(cs[0]) + err1 by {
        Associative(StderrReply(cs[0]), StderrReplies(cs[1..]), laterErr);
      }
      RunReply(s, cmds[0], cs[0], out1, err1);
      var next := Session(s.stdin + Encode(cmds[0]), out1, err1);
      RunAllReplies(next, cmds[1..], cs[1..], laterOut, laterErr);
      assert next.stdin + Terminate(cmds[1..]) == s.stdin + Terminate(cmds) by {
        Associative(s.stdin, Encode(cmds[0]), Terminate(cmds[1..]));
      }
      assert [cs[0]] + cs[1..] == cs;
    } else {
      assert StdoutReplies(cs) == [] && StderrReplies(cs) == [];
      assert s.stdout == laterOut && s.stderr == laterErr;
      assert s.stdin + Terminate(cmds) == s.stdin;
    }
  }

  /** The REPL splitting its standard input recovers every command, in order, when
      no command holds a sentinel. */
  lemma {:induction false} ScriptRoundTrip(cmds: seq<seq<byte>>)
    requires forall i :: 0 <= i < |cmds| ==> Sentinel !in cmds[i]
    ensures SplitFrames(Terminate(cmds)) == cmds
  {
    SplitTerminate(cmds);
  }
}
