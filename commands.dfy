/**
 * `SimpleCommandRegistry`: the table of slash commands by name.
 *
 * Commands are registered under their own name and the first registration
 * of a name wins; a slash-command event is dispatched to the command stored
 * under the event's name.
 */
module Commands {
  import opened Wrappers

  /** A command object: the name it reports and an identity that stands for
      the object itself (two registrations may carry the same name). */
  datatype Command = Command(name: string, handle: nat)

  /** What handling a slash-command event does. */
  datatype Dispatch =
    | Executed(command: Command)   // the stored command's `execute` is called
    | Unknown(name: string)        // no command by that name: only a warning

  /** The commands map after `registerCommand(command)`. */
  function Registered(commands: map<string, Command>, command: Option<Command>): map<string, Command>
  {
    if command.Some? && command.value.name !in commands then commands[command.value.name := command.value]
    else commands
  }

  /** The commands map after `unregisterCommand(command)`. */
  function Unregistered(commands: map<string, Command>, command: Option<Command>): map<string, Command>
  {
    if command.Some? && command.value.name in commands then commands - {command.value.name}
    else commands
  }

  /** Every command is stored under its own name. */
  ghost predicate KeyedByName(commands: map<string, Command>)
  {
    forall n :: n in commands ==> commands[n].name == n
  }

  class SimpleCommandRegistry {
    var commands: map<string, Command>

    ghost predicate Valid()
      reads this
    {
      KeyedByName(commands)
    }

    constructor ()
      ensures Valid() && commands == map[]
    {
      commands := map[];
    }

    /** `registerCommand`: a null command, or a name already taken, changes
        nothing; otherwise the command is stored under its name. */
    method RegisterCommand(command: Option<Command>)
      requires Valid()
      modifies this
      ensures Valid()
      ensures commands == Registered(old(commands), command)
    {
      if command.None? {
        return;
      }
      var name := command.value.name;
      if name in commands {
        return;
      }
      commands := commands[name := command.value];
    }

    /** `unregisterCommand`: a null command, or a name not registered,
        changes nothing; otherwise the entry under the command's name goes,
        whichever command object is stored there. */
    method UnregisterCommand(command: Option<Command>)
      requires Valid()
      modifies this
      ensures Valid()
      ensures commands == Unregistered(old(commands), command)
    {
      if command.None? {
        return;
      }
      var name := command.value.name;
      if name !in commands {
        return;
      }
      commands := commands - {name};
    }

    /** `getCommand`: the command registered under `name`, or null. */
    method GetCommand(name: string) returns (c: Option<Command>)
      requires Valid()
      ensures c.Some? <==> name in commands
      ensures c.Some? ==> c.value == commands[name] && c.value.name == name
    {
      c := if name in commands then Some(commands[name]) else None;
    }

    /** `getCommands`: the registered commands, one per registered name. */
    method GetCommands() returns (cs: set<Command>)
      requires Valid()
      ensures forall c :: c in cs <==> c.name in commands && commands[c.name] == c
      ensures |cs| == |commands|
    {
      cs := commands.Values;
      ValuesOnePerName(commands);
    }

    /** `onSlashCommandInteraction`: run the command stored under the
        event's name, or do nothing but warn when there is none. */
    method OnSlashCommandInteraction(eventName: string) returns (d: Dispatch)
      requires Valid()
      ensures d.Executed? <==> eventName in commands
      ensures d.Executed? ==> d.command == commands[eventName] && d.command.name == eventName
      ensures d.Unknown? ==> d.name == eventName
    {
      var command := GetCommand(eventName);
      if command.None? {
        return Unknown(eventName);
      }
      d := Executed(command.value);
    }
  }

  /** A map keyed by the stored commands' own names holds as many distinct
      commands as names. */
  lemma {:induction false} ValuesOnePerName(commands: map<string, Command>)
    requires KeyedByName(commands)
    ensures forall c :: c in commands.Values <==> c.name in commands && commands[c.name] == c
    ensures |commands.Values| == |commands|
    decreases |commands|
  {
    if commands != map[] {
      var n :| n in commands;
      var rest := commands - {n};
      ValuesOnePerName(rest);
      assert commands.Values == rest.Values + {commands[n]};
      assert commands[n] !in rest.Values;
      assert |commands| == |rest| + 1 by {
        assert commands.Keys == rest.Keys + {n};
      }
    }
  }

  /** The first registration of a name wins: a second command under the same
      name is ignored. */
  lemma FirstRegistrationWins(commands: map<string, Command>, first: Command, second: Command)
    requires first.name == second.name
    ensures Registered(Registered(commands, Some(first)), Some(second)) == Registered(commands, Some(first))
  {
  }

  /** Registering a command under a fresh name and then unregistering it
      restores the registry. */
  lemma RegisterThenUnregister(commands: map<string, Command>, command: Command)
    requires command.name !in commands
    ensures Unregistered(Registered(commands, Some(command)), Some(command)) == commands
  {
    assert Registered(commands, Some(command)) - {command.name} == commands;
  }

  /** Registration and unregistration keep every command under its own name,
      and touch no entry but the command's. */
  lemma UpdatesKeepOtherNames(commands: map<string, Command>, command: Option<Command>, n: string)
    requires KeyedByName(commands)
    requires command.None? || n != command.value.name
    ensures KeyedByName(Registered(commands, command)) && KeyedByName(Unregistered(commands, command))
    ensures n in Registered(commands, command) <==> n in commands
    ensures n in Unregistered(commands, command) <==> n in commands
    ensures n in commands ==>
      Registered(commands, command)[n] == commands[n] && Unregistered(commands, command)[n] == commands[n]
  {
  }
}
