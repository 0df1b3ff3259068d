/** The state of the Var Inspector window: the four filter sets and their
    editor, the change log, and the snapshots the change handlers compare
    against. Swing widgets are replaced by the values they hold: the editor
    list models are sequences, the tracker panel is a sequence of rows, and
    the widget the user picked from (type box, id spinner, rule field,
    selected row) becomes a method parameter. */
module Devtools {
  import opened JavaLang
  import opened VarKeys
  import opened NameRules
  import opened VarLog

  datatype ListState = Blacklist | Highlight
  datatype EditMode = Ids | Names

  /** A value of the client's VarClient map: an `Integer`, or a `String`
      that may be null. */
  datatype VarcValue = IntValue(i: int) | StrValue(s: Option<string>)

  /** `order` lists every element of `s` exactly once: what a loop over a
      Java `Set` visits, in the set's own iteration order. The first listed
      element is in the set, and the rest of the list lists the rest of it. */
  ghost predicate Lists<T>(order: seq<T>, s: set<T>)
    decreases |order|
  {
    if order == [] then s == {} else order[0] in s && Lists(order[1..], s - {order[0]})
  }

  /** What `Lists` means element by element: the listed elements are the
      set's, every element of the set is listed, and none twice. */
  lemma {:induction false} ListsExactlyOnce<T>(order: seq<T>, s: set<T>)
    requires Lists(order, s)
    ensures forall i :: 0 <= i < |order| ==> order[i] in s
    ensures forall x :: x in s ==> x in order
    ensures forall i, j :: 0 <= i < j < |order| ==> order[i] != order[j]
    decreases |order|
  {
    if order != [] {
      var x, rest := order[0], order[1..];
      ListsExactlyOnce(rest, s - {x});
      forall i | 0 < i < |order| ensures order[i] in s {
        assert order[i] == rest[i - 1];
      }
      forall y | y in s && y != x ensures y in order {
        assert y in s - {x};
        var k :| 0 <= k < |rest| && rest[k] == y;
        assert order[k + 1] == y;
      }
      forall i, j | 0 <= i < j < |order| ensures order[i] != order[j] {
        assert order[j] == rest[j - 1];
        if i > 0 {
          assert order[i] == rest[i - 1];
        }
      }
    }
  }

  /** The elements of a set in some order, one `addElement` per element. */
  method Enumerate<T>(s: set<T>) returns (order: seq<T>)
    ensures Lists(order, s)
  {
    order := [];
    var rest := s;
    while rest != {}
      invariant rest <= s
      invariant Lists(order, s - rest)
      decreases |rest|
    {
      var x :| x in rest;
      assert (s - (rest - {x})) - {x} == s - rest;
      ghost var before := order;
      order := [x] + order;
      assert order[0] == x && order[1..] == before;
      rest := rest - {x};
    }
    assert s - rest == s;
  }

  /** `varcs.getOrDefault(idx, 0)` cast to `Integer`. */
  function IntOr(m: map<int, VarcValue>, idx: int): int
    requires idx in m ==> m[idx].IntValue?
  {
    if idx in m then m[idx].i else 0
  }

  /** `varcs.getOrDefault(idx, "")` cast to `String`. */
  function StrOr(m: map<int, VarcValue>, idx: int): Option<string>
    requires idx in m ==> m[idx].StrValue?
  {
    if idx in m then m[idx].s else Some("")
  }

  /** `System.arraycopy(src, 0, a, 0, a.length)`. */
  method CopyInto(a: array<int>, src: seq<int>)
    requires a.Length <= |src|
    modifies a
    ensures a[..] == src[..a.Length]
  {
    forall k | 0 <= k < a.Length {
      a[k] := src[k];
    }
  }

  class VarInspector {
    /** The names read by reflection from the client's id classes. */
    const varbitNames: map<int, string>
    const varcNames: map<int, string>
    const varpNames: map<int, string>

    /** The kinds whose check box is ticked. */
    var enabled: set<VarType>
    var blacklist: set<Int64>
    var highlights: set<Int64>
    var blacklistNames: set<string>
    var highlightNames: set<string>

    var state: ListState
    var editMode: EditMode
    /** The rows of the id list and of the name-rule list. */
    var listModel: seq<Int64>
    var nameListModel: seq<string>

    /** The rows of the tracker panel. */
    var tracker: seq<Entry>
    var lastTick: int

    var oldVarps: array?<int>
    var oldVarps2: array?<int>
    /** Varp index to the ids of the varbits stored in it, in the multimap's
        iteration order; `None` while the window is closed. */
    var varbits: Option<map<int, seq<Int32>>>
    var varcs: Option<map<int, VarcValue>>

    /** `getSet()`: the key set the editor works on. */
    function GetSet(): set<Int64>
      reads this`state, this`blacklist, this`highlights
    {
      if state == Blacklist then blacklist else highlights
    }

    /** The name-rule set the editor works on. */
    function GetNames(): set<string>
      reads this`state, this`blacklistNames, this`highlightNames
    {
      if state == Blacklist then blacklistNames else highlightNames
    }

    /** What `addVarLog` consults. */
    function CurrentFilter(): Filter
      reads this`enabled, this`blacklist, this`highlights, this`blacklistNames, this`highlightNames
    {
      Filter(enabled, blacklist, highlights, blacklistNames, highlightNames)
    }

    function CurrentLog(): Log
      reads this`tracker, this`lastTick
    {
      Log(tracker, lastTick)
    }

    /** The list the editor shows lists the set it edits; the two snapshots
        are allocated together; the tracker is never over its bound. */
    ghost predicate Valid()
      reads this
    {
      EditorShowsSet() &&
      (oldVarps == null <==> oldVarps2 == null) &&
      (oldVarps != null ==> oldVarps != oldVarps2 && oldVarps.Length == oldVarps2.Length) &&
      |tracker| <= MAX_LOG_ENTRIES
    }

    /** The list the editor shows lists the set it edits. */
    ghost predicate EditorShowsSet()
      reads this`editMode, this`listModel, this`nameListModel, this`state,
            this`blacklist, this`highlights, this`blacklistNames, this`highlightNames
    {
      (editMode == Ids ==> Lists(listModel, GetSet())) &&
      (editMode == Names ==> Lists(nameListModel, GetNames()))
    }

    /** The window is open: the handlers are registered and have state to compare with. */
    ghost predicate IsOpen()
      reads this`oldVarps, this`varbits, this`varcs
    {
      oldVarps != null && varbits.Some? && varcs.Some?
    }

    /** The constructor's non-UI part: the sets loaded from the four
        configuration entries (each already split into its CSV items), all
        check boxes ticked, the blacklist id editor shown. */
    constructor (varbitNames: map<int, string>, varcNames: map<int, string>, varpNames: map<int, string>,
                 blacklistCfg: seq<string>, highlightsCfg: seq<string>,
                 blacklistNamesCfg: seq<string>, highlightNamesCfg: seq<string>)
      ensures Valid() && !IsOpen()
      ensures this.varbitNames == varbitNames && this.varcNames == varcNames && this.varpNames == varpNames
      ensures blacklist == LoadKeySet(blacklistCfg) && highlights == LoadKeySet(highlightsCfg)
      ensures blacklistNames == set i | 0 <= i < |blacklistNamesCfg| :: blacklistNamesCfg[i]
      ensures highlightNames == set i | 0 <= i < |highlightNamesCfg| :: highlightNamesCfg[i]
      ensures enabled == {Varbit, Varp, VarcInt, VarcStr}
      ensures state == Blacklist && editMode == Ids
      ensures tracker == [] && lastTick == 0
    {
      this.varbitNames := varbitNames;
      this.varcNames := varcNames;
      this.varpNames := varpNames;
      enabled := {Varbit, Varp, VarcInt, VarcStr};
      blacklist := LoadKeySet(blacklistCfg);
      highlights := LoadKeySet(highlightsCfg);
      blacklistNames := set i | 0 <= i < |blacklistNamesCfg| :: blacklistNamesCfg[i];
      highlightNames := set i | 0 <= i < |highlightNamesCfg| :: highlightNamesCfg[i];
      state := Blacklist;
      editMode := Ids;
      nameListModel := [];
      tracker := [];
      lastTick := 0;
      oldVarps := null;
      oldVarps2 := null;
      varbits := None;
      varcs := None;
      new;
      listModel := Enumerate(GetSet());
    }

    // -------------------------------------------------------------------
    // The list editor
    // -------------------------------------------------------------------

    /** `refreshEditorList`: refill the list of the current edit mode. */
    method RefreshEditorList()
      modifies this`listModel, this`nameListModel
      ensures editMode == Ids ==> Lists(listModel, GetSet()) && nameListModel == old(nameListModel)
      ensures editMode == Names ==> Lists(nameListModel, GetNames()) && listModel == old(listModel)
    {
      if editMode == Ids {
        listModel := Enumerate(GetSet());
      } else {
        nameListModel := Enumerate(GetNames());
      }
    }

    /** `changeState`: switch the editor between the blacklist and the highlights. */
    method ChangeState(s: ListState)
      requires Valid()
      modifies this`state, this`listModel, this`nameListModel
      ensures Valid() && state == s
      ensures editMode == Ids ==> nameListModel == old(nameListModel)
      ensures editMode == Names ==> listModel == old(listModel)
    {
      state := s;
      RefreshEditorList();
    }

    /** `changeEditMode`: switch the editor between ids and name rules. */
    method ChangeEditMode(m: EditMode)
      requires Valid()
      modifies this`editMode, this`listModel, this`nameListModel
      ensures Valid() && editMode == m
      ensures m == Ids ==> nameListModel == old(nameListModel)
      ensures m == Names ==> listModel == old(listModel)
    {
      editMode := m;
      RefreshEditorList();
    }

    /** `addToSet`: add the key of the chosen kind and id to the set being edited. */
    method AddToSet(t: VarType, id: Int32)
      requires Valid() && editMode == Ids
      modifies this`blacklist, this`highlights, this`listModel, this`nameListModel
      ensures Valid()
      ensures GetSet() == old(GetSet()) + {Key(t, id)}
      ensures state == Blacklist ==> highlights == old(highlights)
      ensures state == Highlight ==> blacklist == old(blacklist)
    {
      UpdateSet(GetSet() + {Key(t, id)});
    }

    /** `removeSelectedFromSet`: remove the key in the selected row; -1 means no row is selected. */
    method RemoveSelectedFromSet(selected: int)
      requires Valid() && editMode == Ids
      requires -1 <= selected < |listModel|
      modifies this`blacklist, this`highlights, this`listModel, this`nameListModel
      ensures Valid()
      ensures selected == -1 ==> blacklist == old(blacklist) && highlights == old(highlights)
      ensures selected != -1 ==> GetSet() == old(GetSet()) - {old(listModel[selected])}
      ensures state == Blacklist ==> highlights == old(highlights)
      ensures state == Highlight ==> blacklist == old(blacklist)
    {
      if selected == -1 {
        return;
      }
      UpdateSet(GetSet() - {listModel[selected]});
    }

    /** The set being edited becomes `s`, and the list is refilled from it. */
    method UpdateSet(s: set<Int64>)
      requires Valid() && editMode == Ids
      modifies this`blacklist, this`highlights, this`listModel, this`nameListModel
      ensures Valid() && GetSet() == s
      ensures state == Blacklist ==> highlights == old(highlights)
      ensures state == Highlight ==> blacklist == old(blacklist)
    {
      if state == Blacklist {
        blacklist := s;
      } else {
        highlights := s;
      }
      RefreshEditorList();
    }

    /** `addToEditor`: in id mode add the chosen key; in name mode add the
        trimmed text of the rule field (`None` is a null text), unless
        nothing is left after trimming. */
    method AddToEditor(t: VarType, id: Int32, ruleText: Option<string>)
      requires Valid()
      modifies this`blacklist, this`highlights, this`blacklistNames, this`highlightNames,
               this`listModel, this`nameListModel
      ensures Valid()
      ensures editMode == Ids ==>
        GetSet() == old(GetSet()) + {Key(t, id)} && blacklistNames == old(blacklistNames) &&
        highlightNames == old(highlightNames)
      ensures editMode == Names ==> blacklist == old(blacklist) && highlights == old(highlights)
      ensures editMode == Names && (ruleText.None? || Trim(ruleText.value) == "") ==>
        blacklistNames == old(blacklistNames) && highlightNames == old(highlightNames)
      ensures editMode == Names && ruleText.Some? && Trim(ruleText.value) != "" ==>
        GetNames() == old(GetNames()) + {Trim(ruleText.value)}
      ensures state == Blacklist ==> highlights == old(highlights) && highlightNames == old(highlightNames)
      ensures state == Highlight ==> blacklist == old(blacklist) && blacklistNames == old(blacklistNames)
    {
      if editMode == Ids {
        AddToSet(t, id);
        return;
      }
      if ruleText.None? {
        return;
      }
      var rule := Trim(ruleText.value);
      if rule == "" {
        return;
      }
      UpdateNames(GetNames() + {rule});
    }

    /** The rule set being edited becomes `s`, and the list is refilled from it. */
    method UpdateNames(s: set<string>)
      requires Valid() && editMode == Names
      modifies this`blacklistNames, this`highlightNames, this`listModel, this`nameListModel
      ensures Valid() && GetNames() == s
      ensures state == Blacklist ==> highlightNames == old(highlightNames)
      ensures state == Highlight ==> blacklistNames == old(blacklistNames)
    {
      if state == Blacklist {
        blacklistNames := s;
      } else {
        highlightNames := s;
      }
      RefreshEditorList();
    }

    /** `removeSelectedFromEditor`: remove the selected row of the list shown. */
    method RemoveSelectedFromEditor(selected: int)
      requires Valid()
      requires -1 <= selected < if editMode == Ids then |listModel| else |nameListModel|
      modifies this`blacklist, this`highlights, this`blacklistNames, this`highlightNames,
               this`listModel, this`nameListModel
      ensures Valid()
      ensures selected == -1 ==>
        blacklist == old(blacklist) && highlights == old(highlights) &&
        blacklistNames == old(blacklistNames) && highlightNames == old(highlightNames)
      ensures editMode == Ids ==> blacklistNames == old(blacklistNames) && highlightNames == old(highlightNames)
      ensures editMode == Ids && selected != -1 ==> GetSet() == old(GetSet()) - {old(listModel[selected])}
      ensures editMode == Names ==> blacklist == old(blacklist) && highlights == old(highlights)
      ensures editMode == Names && selected != -1 ==> GetNames() == old(GetNames()) - {old(nameListModel[selected])}
      ensures state == Blacklist ==> highlights == old(highlights) && highlightNames == old(highlightNames)
      ensures state == Highlight ==> blacklist == old(blacklist) && blacklistNames == old(blacklistNames)
    {
      if editMode == Ids {
        RemoveSelectedFromSet(selected);
      } else {
        RemoveSelectedRule(selected);
      }
    }

    /** The name-mode branch of `removeSelectedFromEditor`: remove the rule in
        the selected row; -1 means no row is selected. */
    method RemoveSelectedRule(selected: int)
      requires Valid() && editMode == Names
      requires -1 <= selected < |nameListModel|
      modifies this`blacklistNames, this`highlightNames, this`listModel, this`nameListModel
      ensures Valid()
      ensures selected == -1 ==> blacklistNames == old(blacklistNames) && highlightNames == old(highlightNames)
      ensures selected != -1 ==> GetNames() == old(GetNames()) - {old(nameListModel[selected])}
      ensures state == Blacklist ==> highlightNames == old(highlightNames)
      ensures state == Highlight ==> blacklistNames == old(blacklistNames)
    {
      if selected == -1 {
        return;
      }
      UpdateNames(GetNames() - {nameListModel[selected]});
    }

    // -------------------------------------------------------------------
    // The change log
    // -------------------------------------------------------------------

    /** `addVarLog` with its `invokeLater` task run at once; `tick` is
        `client.getTickCount()`. */
    method AddVarLog(kind: VarType, id: Int32, name: string, before: string, after: string, tick: int)
      modifies this`tracker, this`lastTick
      ensures CurrentLog() == Record(old(CurrentLog()), CurrentFilter(), kind, id, name, before, after, tick)
      ensures |tracker| <= MAX_LOG_ENTRIES || tracker == old(tracker)
    {
      if kind !in enabled {
        return;
      }
      var k := Key(kind, id);
      var blocked := MatchesAnyNameRule(blacklistNames, Some(name));
      if k in blacklist || blocked {
        return;
      }
      var highlight := MatchesAnyNameRule(highlightNames, Some(name));
      highlight := k in highlights || highlight;

      AppendRow(tick, Line(kind, name, before, after, highlight));
      assert Decide(CurrentFilter(), kind, id, name) == Show(highlight);
    }

    /** The `invokeLater` task of `addVarLog`: a header when the tick is new,
        then the line, then the oldest rows removed while there are more than
        `MAX_LOG_ENTRIES`. */
    method AppendRow(tick: int, line: Entry)
      modifies this`tracker, this`lastTick
      ensures CurrentLog() == Append(old(CurrentLog()), tick, line)
    {
      ghost var all := tracker + NewRows(lastTick, tick, line);
      if tick != lastTick {
        lastTick := tick;
        tracker := tracker + [Header(tick)];
      }
      tracker := tracker + [line];
      assert tracker == all;
      while |tracker| > MAX_LOG_ENTRIES
        invariant |tracker| <= |all| && tracker == all[|all| - |tracker|..]
        invariant |all| <= MAX_LOG_ENTRIES ==> tracker == all
        invariant |all| > MAX_LOG_ENTRIES ==> |tracker| >= MAX_LOG_ENTRIES
        invariant lastTick == tick
      {
        assert tracker[1..] == all[|all| - |tracker| + 1..];
        tracker := tracker[1..];
      }
    }

    /** The Clear button: empty the tracker panel (the last tick is kept). */
    method ClearLog()
      requires Valid()
      modifies this`tracker
      ensures Valid() && tracker == []
    {
      tracker := [];
    }

    // -------------------------------------------------------------------
    // The change handlers
    // -------------------------------------------------------------------

    /** `varbits.get(index)`: empty for a varp that holds no varbit. */
    function VarbitsOf(index: int): seq<Int32>
      reads this
      requires varbits.Some?
    {
      if index in varbits.value then varbits.value[index] else []
    }

    /** The loop of `onVarbitChanged` over the varbits `ids` of varp `index`:
        each changed varbit is logged and written into `oldVarps2[index]`. */
    method CheckVarbits(index: Int32, ids: seq<Int32>, oldWord: int, newWord: int,
                        getBits: (int, int) -> int, setBits: (int, int, int) -> int, tick: int)
      requires oldVarps2 != null && 0 <= index < oldVarps2.Length
      modifies this`tracker, this`lastTick, oldVarps2
      ensures (oldVarps2[index], CurrentLog()) ==
        VarbitPass(old(CurrentLog()), CurrentFilter(), varbitNames, ids, oldWord, newWord,
                   old(oldVarps2[index]), getBits, setBits, tick)
      ensures forall k :: 0 <= k < oldVarps2.Length && k != index ==> oldVarps2[k] == old(oldVarps2[k])
      ensures |tracker| <= MAX_LOG_ENTRIES || tracker == old(tracker)
    {
      ghost var log0 := CurrentLog();
      ghost var word0 := oldVarps2[index];
      var j := 0;
      while j < |ids|
        invariant 0 <= j <= |ids|
        invariant |tracker| <= MAX_LOG_ENTRIES || tracker == old(tracker)
        invariant forall k :: 0 <= k < oldVarps2.Length && k != index ==> oldVarps2[k] == old(oldVarps2[k])
        invariant (oldVarps2[index], CurrentLog()) ==
          VarbitPass(log0, CurrentFilter(), varbitNames, ids[..j], oldWord, newWord, word0, getBits, setBits, tick)
      {
        VarbitPassExtend(log0, CurrentFilter(), varbitNames, ids, j, oldWord, newWord, word0, getBits, setBits, tick);
        CheckVarbit(index, ids[j], oldWord, newWord, getBits, setBits, tick);
        j := j + 1;
      }
      assert ids[..j] == ids;
    }

    /** One turn of the varbit loop of `onVarbitChanged`, for varbit `i`. */
    method CheckVarbit(index: Int32, i: Int32, oldWord: int, newWord: int,
                       getBits: (int, int) -> int, setBits: (int, int, int) -> int, tick: int)
      requires oldVarps2 != null && 0 <= index < oldVarps2.Length
      modifies this`tracker, this`lastTick, oldVarps2
      ensures (oldVarps2[index], CurrentLog()) ==
        VarbitStep((old(oldVarps2[index]), old(CurrentLog())), CurrentFilter(), varbitNames, i,
                   oldWord, newWord, getBits, setBits, tick)
      ensures forall k :: 0 <= k < oldVarps2.Length && k != index ==> oldVarps2[k] == old(oldVarps2[k])
      ensures |tracker| <= MAX_LOG_ENTRIES || tracker == old(tracker)
    {
      var before := getBits(oldWord, i);
      var after := getBits(newWord, i);
      if before != after {
        oldVarps2[index] := setBits(oldVarps2[index], i, after);
        AddVarLog(Varbit, i, NameOrId(varbitNames, i), DecimalString(before), DecimalString(after), tick);
      }
    }

    /** `onVarbitChanged` for varp `index`, with `varps` the client's varps
        and `getBits`/`setBits` reading and writing one of varp `index`'s
        varbits in a varp word. */
    method OnVarbitChanged(index: Int32, varps: seq<int>, getBits: (int, int) -> int,
                           setBits: (int, int, int) -> int, tick: int)
      requires Valid() && IsOpen()
      requires oldVarps.Length == |varps| && 0 <= index < |varps|
      modifies this`tracker, this`lastTick, oldVarps, oldVarps2
      ensures Valid()
      ensures oldVarps[..] == varps && oldVarps2[..] == varps
      ensures var pass := VarbitPass(old(CurrentLog()), CurrentFilter(), varbitNames, VarbitsOf(index),
                                     old(oldVarps[index]), varps[index], old(oldVarps2[index]),
                                     getBits, setBits, tick);
        CurrentLog() == VarpChange(pass.1, CurrentFilter(), varpNames, index, pass.0, varps[index], tick)
    {
      var newWord := varps[index];
      LogVarpChange(index, newWord, getBits, setBits, tick);
      SyncSnapshots(varps);
    }

    /** The comparisons of `onVarbitChanged`, before the snapshots are
        synchronised: first the varbits of varp `index`, then the varp. */
    method LogVarpChange(index: Int32, newWord: int, getBits: (int, int) -> int,
                         setBits: (int, int, int) -> int, tick: int)
      requires varbits.Some? && oldVarps != null && oldVarps2 != null && oldVarps != oldVarps2
      requires 0 <= index < oldVarps.Length == oldVarps2.Length
      modifies this`tracker, this`lastTick, oldVarps2
      ensures var pass := VarbitPass(old(CurrentLog()), CurrentFilter(), varbitNames, VarbitsOf(index),
                                     oldVarps[index], newWord, old(oldVarps2[index]),
                                     getBits, setBits, tick);
        CurrentLog() == VarpChange(pass.1, CurrentFilter(), varpNames, index, pass.0, newWord, tick)
      ensures |tracker| <= MAX_LOG_ENTRIES || tracker == old(tracker)
    {
      CheckVarbits(index, VarbitsOf(index), oldVarps[index], newWord, getBits, setBits, tick);
      CompareVarp(index, oldVarps2[index], newWord, tick);
    }

    /** The two `System.arraycopy` calls that end `onVarbitChanged`. */
    method SyncSnapshots(varps: seq<int>)
      requires oldVarps != null && oldVarps2 != null && oldVarps != oldVarps2
      requires oldVarps.Length == |varps| && oldVarps2.Length == |varps|
      modifies oldVarps, oldVarps2
      ensures oldVarps[..] == varps && oldVarps2[..] == varps
    {
      CopyInto(oldVarps, varps);
      CopyInto(oldVarps2, varps);
      assert varps[..|varps|] == varps;
    }

    /** The varp half of `onVarbitChanged`: log the varp when the second
        snapshot word `word2` differs from its new value. */
    method CompareVarp(index: Int32, word2: int, newWord: int, tick: int)
      modifies this`tracker, this`lastTick
      ensures CurrentLog() == VarpChange(old(CurrentLog()), CurrentFilter(), varpNames, index, word2, newWord, tick)
      ensures |tracker| <= MAX_LOG_ENTRIES || tracker == old(tracker)
    {
      if word2 != newWord {
        AddVarLog(Varp, index, VarpName(varpNames, index), DecimalString(word2), DecimalString(newWord), tick);
      }
    }

    /** `onVarClientIntChanged` for index `idx`, `clientVarcs` being `client.getVarcMap()`. */
    method OnVarClientIntChanged(idx: Int32, clientVarcs: map<int, VarcValue>, tick: int)
      requires Valid() && IsOpen()
      requires idx in clientVarcs ==> clientVarcs[idx].IntValue?
      requires idx in varcs.value ==> varcs.value[idx].IntValue?
      modifies this`tracker, this`lastTick, this`varcs
      ensures Valid() && IsOpen()
      ensures varcs == Some(old(varcs.value)[idx := IntValue(IntOr(clientVarcs, idx))])
      ensures var before := IntOr(old(varcs.value), idx);
        var after := IntOr(clientVarcs, idx);
        CurrentLog() ==
          if before == after then old(CurrentLog())
          else Record(old(CurrentLog()), CurrentFilter(), VarcInt, idx, NameOrId(varcNames, idx),
                      DecimalString(before), DecimalString(after), tick)
    {
      var after := IntOr(clientVarcs, idx);
      var before := IntOr(varcs.value, idx);
      varcs := Some(varcs.value[idx := IntValue(after)]);
      assert EditorShowsSet();
      if before != after {
        AddVarLog(VarcInt, idx, NameOrId(varcNames, idx), DecimalString(before), DecimalString(after), tick);
        assert EditorShowsSet();
      }
    }

    /** `onVarClientStrChanged`: as the int handler, with "" as the default,
        `Objects.equals` as the comparison, and values logged quoted or as "null". */
    method OnVarClientStrChanged(idx: Int32, clientVarcs: map<int, VarcValue>, tick: int)
      requires Valid() && IsOpen()
      requires idx in clientVarcs ==> clientVarcs[idx].StrValue?
      requires idx in varcs.value ==> varcs.value[idx].StrValue?
      modifies this`tracker, this`lastTick, this`varcs
      ensures Valid() && IsOpen()
      ensures varcs == Some(old(varcs.value)[idx := StrValue(StrOr(clientVarcs, idx))])
      ensures var before := StrOr(old(varcs.value), idx);
        var after := StrOr(clientVarcs, idx);
        CurrentLog() ==
          if before == after then old(CurrentLog())
          else Record(old(CurrentLog()), CurrentFilter(), VarcStr, idx, NameOrId(varcNames, idx),
                      Quoted(before), Quoted(after), tick)
    {
      var after := StrOr(clientVarcs, idx);
      var before := StrOr(varcs.value, idx);
      varcs := Some(varcs.value[idx := StrValue(after)]);
      assert EditorShowsSet();
      if before != after {
        AddVarLog(VarcStr, idx, NameOrId(varcNames, idx), Quoted(before), Quoted(after), tick);
        assert EditorShowsSet();
      }
    }

    // -------------------------------------------------------------------
    // Opening and closing the window
    // -------------------------------------------------------------------

    /** `open`: allocate the snapshots on first use, copy the client's
        varps into both, copy the VarClient map, and take the varp-to-varbits
        index (built from the cache on the client thread). */
    method Open(varps: seq<int>, clientVarcs: map<int, VarcValue>, varbitIndex: map<int, seq<Int32>>)
      requires Valid()
      requires oldVarps != null ==> oldVarps.Length <= |varps|
      modifies this`oldVarps, this`oldVarps2, this`varcs, this`varbits, oldVarps, oldVarps2
      ensures Valid() && IsOpen()
      ensures old(oldVarps) == null ==> fresh(oldVarps) && fresh(oldVarps2) && oldVarps.Length == |varps|
      ensures old(oldVarps) != null ==> oldVarps == old(oldVarps) && oldVarps2 == old(oldVarps2)
      ensures oldVarps[..] == varps[..oldVarps.Length] && oldVarps2[..] == varps[..oldVarps2.Length]
      ensures varcs == Some(clientVarcs) && varbits == Some(varbitIndex)
    {
      if oldVarps == null {
        oldVarps := new int[|varps|];
        oldVarps2 := new int[|varps|];
      }
      CopyInto(oldVarps, varps);
      CopyInto(oldVarps2, varps);
      varcs := Some(clientVarcs);
      varbits := Some(varbitIndex);
    }

    /** `close`: empty the tracker and drop the VarClient copy and the varbit index. */
    method Close()
      requires Valid()
      modifies this`tracker, this`varcs, this`varbits
      ensures Valid() && !IsOpen()
      ensures tracker == [] && varcs.None? && varbits.None?
    {
      tracker := [];
      varcs := None;
      varbits := None;
    }
  }
}
