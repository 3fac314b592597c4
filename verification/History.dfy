/** The shell's walk through its command history with the Up and Down keys. */
module History {

  datatype Key = Up | Down

  /** The fields of the shell the walk touches. */
  datatype Prompt = Prompt(cmdline: string, history: seq<string>, index: nat, buffered: bool)

  /** The history as browsed: the recorded commands, then the draft if it was put there. */
  function Browsed(history: seq<string>, draft: string, buffered: bool): seq<string> {
    if buffered then history + [draft] else history
  }

  /**
   A state of a walk that began at the draft with nothing recorded: the index counts back from the end
   of what is browsed, and the command line shows the entry there.
   */
  ghost predicate Walking(history: seq<string>, draft: string, p: Prompt) {
    && p.history == Browsed(history, draft, p.buffered)
    && p.index <= |p.history|
    && p.cmdline == (if p.index == 0 then draft else p.history[|p.history| - p.index])
    && (p.buffered ==> draft != "" && history != [] && p.index > 0)
    && (!p.buffered && p.index > 0 ==> draft == "")
  }

  class Shell {
    var cmdline: string
    var commandHistory: seq<string>
    var historyIndex: nat
    var bufferedCmdRecorded: bool

    function Snap(): Prompt
      reads this
    {
      Prompt(cmdline, commandHistory, historyIndex, bufferedCmdRecorded)
    }

    constructor (draft: string, history: seq<string>)
      ensures Snap() == Prompt(draft, history, 0, false)
    {
      cmdline, commandHistory, historyIndex, bufferedCmdRecorded := draft, history, 0, false;
    }

    /** Up: one entry further back, recording a non-empty draft first; nothing at the oldest entry. */
    method GotoPreviousCommand(ghost history: seq<string>, ghost draft: string)
      requires Walking(history, draft, Snap())
      modifies this
      ensures Walking(history, draft, Snap())
      ensures historyIndex == 0 ==> cmdline == draft && commandHistory == history
      ensures historyIndex > 0 ==>
                && commandHistory == (if draft == "" then history else history + [draft])
                && historyIndex <= |commandHistory| && cmdline == commandHistory[|commandHistory| - historyIndex]
      ensures historyIndex ==
              if old(historyIndex) == |old(commandHistory)| then old(historyIndex)
              else if old(historyIndex) == 0 && draft != "" then 2
              else old(historyIndex) + 1
    {
      if historyIndex == |commandHistory| {
        return;
      }
      if historyIndex == 0 {
        var previousInput := cmdline;
        if previousInput != "" {
          commandHistory := commandHistory + [previousInput];
          historyIndex := historyIndex + 1;
          bufferedCmdRecorded := true;
        }
      }
      historyIndex := historyIndex + 1;
      cmdline := commandHistory[|commandHistory| - historyIndex];
    }

    /** Down: one entry forward; the recorded draft is taken off the history again at the prompt. */
    method GotoNextCommand(ghost history: seq<string>, ghost draft: string)
      requires Walking(history, draft, Snap())
      modifies this
      ensures Walking(history, draft, Snap())
      ensures historyIndex == 0 ==> cmdline == draft && commandHistory == history
      ensures historyIndex > 0 ==>
                && commandHistory == (if draft == "" then history else history + [draft])
                && historyIndex <= |commandHistory| && cmdline == commandHistory[|commandHistory| - historyIndex]
      ensures historyIndex == if old(historyIndex) == 0 then 0 else old(historyIndex) - 1
    {
      if historyIndex == 0 {
        return;
      }
      if historyIndex == 1 && bufferedCmdRecorded {
        cmdline := commandHistory[|commandHistory| - 1];
        commandHistory := commandHistory[..|commandHistory| - 1];
        historyIndex := historyIndex - 1;
        bufferedCmdRecorded := false;
        return;
      }
      historyIndex := historyIndex - 1;
      if historyIndex == 0 {
        cmdline := "";
        return;
      }
      cmdline := commandHistory[|commandHistory| - historyIndex];
    }

    /** Any sequence of keys: the index stays in range, and back at the prompt everything is as at the start. */
    method Walk(keys: seq<Key>)
      requires historyIndex == 0 && !bufferedCmdRecorded
      modifies this
      ensures historyIndex <= |commandHistory|
      ensures Walking(old(commandHistory), old(cmdline), Snap())
      ensures historyIndex == 0 ==> Snap() == old(Snap())
      ensures historyIndex > 0 ==>
                && commandHistory == old(if cmdline == "" then commandHistory else commandHistory + [cmdline])
                && cmdline == commandHistory[|commandHistory| - historyIndex]
      ensures historyIndex == Position(|old(commandHistory)|, old(cmdline) != "", keys)
    {
      ghost var history, draft := commandHistory, cmdline;
      for i := 0 to |keys|
        invariant Walking(history, draft, Snap())
        invariant historyIndex == Position(|history|, draft != "", keys[..i])
      {
        assert keys[..i + 1][..i] == keys[..i];
        match keys[i]
        case Up => GotoPreviousCommand(history, draft);
        case Down => GotoNextCommand(history, draft);
      }
      assert keys[..|keys|] == keys;
    }
  }

  /**
   How far back a sequence of keys ends: a counter kept between 0 and the number of entries. A
   non-empty draft counts as one more entry, the first one back, and the first Up skips it.
   */
  function Position(entries: nat, draft: bool, keys: seq<Key>): nat {
    if keys == [] then 0
    else
      var at := Position(entries, draft, keys[..|keys| - 1]);
      match keys[|keys| - 1]
      case Down => if at == 0 then 0 else at - 1
      case Up =>
        if entries == 0 then 0
        else if at == 0 then (if draft then 2 else 1)
        else if at < (if draft then entries + 1 else entries) then at + 1 else at
  }

  /** After any keys, as many Downs as entries have been gone back lead to the prompt again, and fewer do not. */
  lemma {:induction false} DownsReturn(entries: nat, draft: bool, keys: seq<Key>, n: nat)
    ensures Position(entries, draft, keys + seq(n, _ => Down)) ==
            if n >= Position(entries, draft, keys) then 0 else Position(entries, draft, keys) - n
  {
    var all := keys + seq(n, _ => Down);
    if n == 0 {
      assert all == keys;
    } else {
      DownsReturn(entries, draft, keys, n - 1);
      assert all[..|all| - 1] == keys + seq(n - 1, _ => Down);
    }
  }
}
