/** The client side as it runs: `ModuleAnalytics` and `Analytics` change their fields in loops
    (`Utilities/Analytics.cpp`). */
module Analytics {
  import opened CppArith
  import U = Usage

  class ModuleAnalytics {
    const id: int
    var commands: seq<string>
    var usage: U.Counts

    constructor (id: int)
      ensures this.id == id && View() == U.Module(id, [], map[])
    {
      this.id := id;
      commands, usage := [], map[];
    }

    function View(): U.Module
      reads this
    {
      U.Module(id, commands, usage)
    }

    method AddCommands(cmds: seq<string>)
      modifies this
      ensures View() == U.Module(id, old(commands) + cmds, old(usage))
    {
      for i := 0 to |cmds|
        invariant View() == U.Module(id, old(commands) + cmds[..i], old(usage))
      {
        assert cmds[..i + 1] == cmds[..i] + [cmds[i]];
        commands := commands + [cmds[i]];
      }
      assert cmds[..|cmds|] == cmds;
    }

    method GatherUsage()
      modifies this
      ensures View() == U.GatherModule(old(View()))
    {
      for i := 0 to |commands|
        invariant commands == old(commands)
        invariant U.Gather(usage, commands[i..]) == U.Gather(old(usage), old(commands))
      {
        assert commands[i..][0] == commands[i] && commands[i..][1..] == commands[i + 1..];
        usage := usage[commands[i] := U32(U.Get(usage, commands[i]) + 1)];
      }
      commands := [];
    }

    /** `order` is the order in which the hash map is visited. */
    method ToString(order: seq<string>) returns (s: string)
      ensures s == U.Print(usage, order)
    {
      s := "";
      for i := 0 to |order|
        invariant s + U.Print(usage, order[i..]) == U.Print(usage, order)
      {
        var entry := U.Entry(order[i], U.Get(usage, order[i])) + " ";
        assert order[i..][0] == order[i] && order[i..][1..] == order[i + 1..];
        assert s + (entry + U.Print(usage, order[i + 1..])) == s + entry + U.Print(usage, order[i + 1..]);
        s := s + entry;
      }
      assert order[|order|..] == [];
      assert s + "" == s;
    }
  }

  class Analytics {
    var data: seq<ModuleAnalytics>

    constructor ()
      ensures Valid() && data == [] && View() == []
    {
      data := [];
    }

    ghost predicate Valid()
      reads this
    {
      forall i, j :: 0 <= i < j < |data| ==> data[i] != data[j]
    }

    function View(): (v: seq<U.Module>)
      reads this, data
      ensures |v| == |data| && forall i :: 0 <= i < |data| ==> v[i] == data[i].View()
    {
      ViewOf(data)
    }

    static function ViewOf(data: seq<ModuleAnalytics>): (v: seq<U.Module>)
      reads data
      ensures |v| == |data| && forall i :: 0 <= i < |data| ==> v[i] == data[i].View()
    {
      if data == [] then [] else [data[0].View()] + ViewOf(data[1..])
    }

    method Find(id: int) returns (i: nat)
      ensures i == U.Find(View(), id)
    {
      i := 0;
      while i != |data|
        invariant i <= |data| && forall k :: 0 <= k < i ==> View()[k].id != id
        decreases |data| - i
      {
        if data[i].id == id {
          break;
        }
        i := i + 1;
      }
    }

    /** The entry of the module, added if it is missing. */
    method FindOrAdd(id: int) returns (i: nat)
      requires Valid()
      modifies this
      ensures Valid() && old(data) <= data && fresh(set m | m in data && m !in old(data))
      ensures i == U.Find(old(View()), id) < |data|
      ensures View() == if i == |old(View())| then old(View()) + [U.Module(id, [], map[])] else old(View())
    {
      hide U.Find, ViewOf;
      i := Find(id);
      if i == |data| {
        ghost var before := View();
        var m := new ModuleAnalytics(id);
        data := data + [m];
        assert View() == before + [U.Module(id, [], map[])];
      }
    }

    method AddCommands(id: int, cmds: seq<string>)
      requires Valid()
      modifies this, data
      ensures Valid() && old(data) <= data && fresh(set m | m in data && m !in old(data))
      ensures View() == U.AddTo(old(View()), id, cmds)
    {
      hide U.Find, ViewOf;
      var i := FindOrAdd(id);
      ghost var wide := View();
      data[i].AddCommands(cmds);
      assert View() == wide[i := wide[i].(commands := wide[i].commands + cmds)];
    }

    method GatherUsage()
      requires Valid()
      modifies data
      ensures Valid() && data == old(data)
      ensures View() == U.GatherEach(old(View()))
    {
      ghost var before := View();
      for i := 0 to |data|
        invariant data == old(data)
        invariant forall k :: 0 <= k < i ==> data[k].View() == U.GatherModule(before[k])
        invariant forall k :: i <= k < |data| ==> data[k].View() == before[k]
      {
        data[i].GatherUsage();
      }
      assert View() == U.GatherEach(before);
    }
  }
}
