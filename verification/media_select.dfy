/**
 * The select control (src/scripts/components/media-select.js): an ordered list
 * of options and the index of the selected one, as the `<select>` element
 * keeps them. The `change` listener calls `onChanged` with the selected value;
 * here the methods that raise `change` return that value (or `None` when no
 * `change` is raised), and the owner of the control runs its handler. A missing
 * `onChanged` is the default no-op, that is, an owner that ignores the value.
 */
module MediaSelect {
  import opened Wrappers

  /** An option's `value` and its `label` (shown as the option's text). */
  datatype SelectOption = SelectOption(value: string, text: string)

  class Select {
    /** The `<option>` children, in document order. */
    var options: seq<SelectOption>
    /** `selectedIndex`: -1 when there is no option. */
    var selectedIndex: int

    /** A drop-down list with options always has one of them selected. */
    ghost predicate Valid()
      reads this
    {
      if |options| == 0 then selectedIndex == -1 else 0 <= selectedIndex < |options|
    }

    /**
     * `params.options`, or `None` when it is not an array (it is then
     * replaced by an empty list). Each option is appended in turn; appending
     * to a list with no selection selects the new option, so the first one
     * ends up selected.
     */
    constructor (params: Option<seq<SelectOption>>)
      ensures Valid()
      ensures options == (if params.Some? then params.value else [])
      ensures selectedIndex == (if |options| > 0 then 0 else -1)
    {
      var items := if params.Some? then params.value else [];
      options := [];
      selectedIndex := -1;
      new;
      var i := 0;
      while i < |items|
        invariant 0 <= i <= |items|
        invariant options == items[..i]
        invariant selectedIndex == (if i > 0 then 0 else -1)
      {
        options := options + [items[i]];
        if selectedIndex == -1 {
          selectedIndex := |options| - 1;
        }
        i := i + 1;
      }
    }

    /** `getValue()`: the selected option's value, "" when nothing is selected. */
    function GetValue(): (v: string)
      reads this
      requires Valid()
      ensures |options| == 0 ==> v == ""
      ensures |options| > 0 ==> v == options[selectedIndex].value
    {
      if selectedIndex == -1 then "" else options[selectedIndex].value
    }

    /** `getSize()`: the number of options. */
    function GetSize(): (n: nat)
      reads this
      ensures n == |options|
    {
      |options|
    }

    /**
     * `reset()`: with at least one option, select the first and dispatch
     * `change`, so `onChanged` runs once with the first value; with none,
     * nothing happens.
     */
    method Reset() returns (changed: Option<string>)
      requires Valid()
      modifies this
      ensures Valid() && options == old(options)
      ensures |options| == 0 ==> changed == None && selectedIndex == old(selectedIndex)
      ensures |options| > 0 ==> selectedIndex == 0 && changed == Some(options[0].value)
      ensures changed.Some? ==> changed.value == GetValue()
    {
      if |options| > 0 {
        selectedIndex := 0;
        changed := Some(GetValue());
      } else {
        changed := None;
      }
    }

    /**
     * The user picks option `index`; the browser raises `change` only when
     * the selection differs from the current one.
     */
    method Choose(index: nat) returns (changed: Option<string>)
      requires Valid() && index < |options|
      modifies this
      ensures Valid() && options == old(options) && selectedIndex == index
      ensures changed == if index == old(selectedIndex) then None else Some(options[index].value)
    {
      if index == selectedIndex {
        changed := None;
      } else {
        selectedIndex := index;
        changed := Some(GetValue());
      }
    }
  }
}
