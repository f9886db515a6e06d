/**
 * The client side of the Deluge console: the torrent record and the `Deluge`
 * object through which every console command is issued. Running a command is
 * modelled as appending it to `issued`, the log of commands sent to the
 * console, in order; what the console prints back comes from `console`, an
 * injected stand-in for the external process.
 */
module Console {
  import opened Wrappers
  import opened Text

  /** The subcommand that dumps every torrent in the detailed report format. */
  const InfoCommand: string := "info --detailed"

  function PauseCommand(id: string): string { "pause " + id }

  function RemoveCommand(id: string): string { "rm " + id }

  /** Pausing and removing are distinct commands, and each names exactly one torrent id. */
  lemma CommandsDistinct(id: string, id': string)
    ensures PauseCommand(id) != RemoveCommand(id')
    ensures PauseCommand(id) == PauseCommand(id') <==> id == id'
    ensures RemoveCommand(id) == RemoveCommand(id') <==> id == id'
  {
    assert PauseCommand(id)[0] != RemoveCommand(id')[0];
    if PauseCommand(id) == PauseCommand(id') {
      assert id == PauseCommand(id)[6..] == PauseCommand(id')[6..] == id';
    }
    if RemoveCommand(id) == RemoveCommand(id') {
      assert id == RemoveCommand(id)[3..] == RemoveCommand(id')[3..] == id';
    }
  }

  /** One torrent as listed by the console. Its fields never change once parsed. */
  datatype Torrent = Torrent(name: string, id: string, state: string, ratio: real, tracker: string)
  {
    /** Pauses this torrent. */
    method Stop(deluge: Deluge)
      modifies deluge
      ensures deluge.issued == old(deluge.issued) + [PauseCommand(id)]
    {
      var reply := deluge.RunCommand(PauseCommand(id));
    }

    /** Removes this torrent from the client. */
    method Remove(deluge: Deluge)
      modifies deluge
      ensures deluge.issued == old(deluge.issued) + [RemoveCommand(id)]
    {
      var reply := deluge.RunCommand(RemoveCommand(id));
    }
  }

  class Deluge {
    /**
     * What the console prints for a command, or None when the command exits
     * with a failure status.
     */
    const console: string -> Option<string>

    /** Every command issued so far, oldest first. */
    var issued: seq<string>

    constructor (console: string -> Option<string>)
      ensures this.console == console && issued == []
    {
      this.console := console;
      issued := [];
    }

    /**
     * The text a command answers with: the console's output with surrounding
     * whitespace stripped, or the empty string when the command failed.
     */
    function Reply(command: string): (r: string)
      ensures Clean(r)
      ensures console(command).None? ==> r == ""
      ensures console(command).Some? && Clean(console(command).value) ==> r == console(command).value
    {
      match console(command)
      case None => ""
      case Some(out) =>
        StripKeepsClean(out);
        Strip(out)
    }

    /**
     * The reply is the console's output with its whitespace padding removed:
     * output `pre + s + post`, with `pre` and `post` all whitespace and `s`
     * clean, answers `s`.
     */
    lemma ReplyPadded(command: string, pre: string, s: string, post: string)
      requires console(command) == Some(pre + s + post)
      requires AllSpace(pre) && AllSpace(post) && Clean(s)
      ensures Reply(command) == s
    {
      StripPadded(pre, s, post);
    }

    /** Issues one command and answers with its reply. */
    method RunCommand(command: string) returns (output: string)
      modifies this
      ensures issued == old(issued) + [command]
      ensures output == Reply(command)
    {
      issued := issued + [command];
      match console(command)
      case None =>
        output := "";
      case Some(out) =>
        output := Strip(out);
    }

    /** Fetches the detailed report of every torrent. */
    method GetAllTorrents() returns (dump: string)
      modifies this
      ensures issued == old(issued) + [InfoCommand]
      ensures dump == Reply(InfoCommand)
    {
      dump := RunCommand(InfoCommand);
    }

    /** Pauses and then removes a torrent: exactly two commands, in that order. */
    method StopAndRemove(torrent: Torrent)
      modifies this
      ensures issued == old(issued) + [PauseCommand(torrent.id), RemoveCommand(torrent.id)]
    {
      torrent.Stop(this);
      torrent.Remove(this);
    }
  }
}
