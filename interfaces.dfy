/**
 * The Interface entity: a named screen with an ordered list of commands and
 * the selection state the navigation code moves (which command is selected,
 * and on which row of the command box it is drawn), and the registry that
 * mod loading inserts interfaces into.
 */
module Interfaces {

  /** A selectable entry; the navigation code reads only its display name. */
  datatype Command = Command(name: string)

  /** The selection state of an interface: `command` is command_index, `cursor` is cursor_index. */
  datatype Selection = Selection(command: nat, cursor: nat) {

    /** The index of the command drawn on the first row of the command box. */
    function Offset(): (r: int)
      ensures r + cursor == command
      ensures cursor <= command ==> r >= 0
    {
      command - cursor
    }
  }

  /**
   * An interface. Its name and commands are fixed once it is created (the
   * core never changes them); only the two selection indices are updated in
   * place, through the pointer the navigation stack holds.
   */
  class Interface {
    const name: string
    const commands: seq<Command>
    var commandIndex: nat
    var cursorIndex: nat

    /** interface_create: a new interface with nothing selected yet. */
    constructor (name: string, commands: seq<Command>)
      ensures this.name == name && this.commands == commands
      ensures commandIndex == 0 && cursorIndex == 0
    {
      this.name := name;
      this.commands := commands;
      commandIndex := 0;
      cursorIndex := 0;
    }

    /** The two indices as one value. */
    function Sel(): Selection
      reads this
    {
      Selection(commandIndex, cursorIndex)
    }
  }

  /**
   * The interface registry as the core sees it: the interfaces handed to
   * interface_registry_insert, in the order they were handed over. What the
   * registry does with a name it already holds is not part of this model.
   */
  class InterfaceRegistry {
    /** The interfaces inserted so far, in insertion order. */
    var inserted: seq<Interface>
    /** The key each of them was inserted under: its name. */
    var keys: seq<string>

    /** Each interface is held under its own name, one key per interface. */
    ghost predicate Valid()
      reads this
    {
      |keys| == |inserted| && forall i :: 0 <= i < |keys| ==> keys[i] == inserted[i].name
    }

    constructor ()
      ensures Valid() && inserted == [] && keys == []
    {
      inserted := [];
      keys := [];
    }

    /** interface_registry_insert: hands `inf` to the registry under its name. */
    method Insert(inf: Interface)
      requires Valid()
      modifies this
      ensures Valid()
      ensures inserted == old(inserted) + [inf]
      ensures keys == old(keys) + [inf.name]
    {
      inserted := inserted + [inf];
      keys := keys + [inf.name];
    }
  }
}
