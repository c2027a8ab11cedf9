/**
 * The device chooser: the combo box lists a placeholder and then every device
 * the bridge knows, by name; a device is found again by comparing names.
 * A device is represented by its name and its position in the bridge's list.
 */
module Devices {
  import opened JavaStrings

  /** The first item of the device list, standing for "no device". */
  const NoDevice := "-- none --"

  /** The items of the device combo box: the placeholder, then each device's name in bridge order. */
  method DeviceComboItems(devs: seq<string>) returns (items: seq<string>)
    ensures |items| == |devs| + 1
    ensures items[0] == NoDevice
    ensures forall k :: 0 <= k < |devs| ==> items[k + 1] == devs[k]
  {
    items := [NoDevice];
    var i := 0;
    while i < |devs|
      invariant 0 <= i <= |devs|
      invariant |items| == i + 1 && items[0] == NoDevice
      invariant forall k :: 0 <= k < i ==> items[k + 1] == devs[k]
    {
      items := items + [devs[i]];
      i := i + 1;
    }
  }

  /** The position of the first device named `selected`, or none when no device has that name. */
  method GetSelectedDevice(selected: string, devs: seq<string>) returns (device: Option<nat>)
    ensures device.None? <==> selected !in devs
    ensures device.Some? ==> device.value < |devs| && devs[device.value] == selected && selected !in devs[..device.value]
  {
    var i := 0;
    while i < |devs|
      invariant 0 <= i <= |devs|
      invariant selected !in devs[..i]
    {
      if devs[i] == selected {
        return Some(i);
      }
      assert devs[..i + 1] == devs[..i] + [devs[i]];
      i := i + 1;
    }
    assert devs[..i] == devs;
    return None;
  }

  /** A shell command is sent only for a user's action and only when a device, not the placeholder, is selected. */
  predicate ShellCommandAllowed(userAction: bool, selectedIndex: int) {
    userAction && selectedIndex != 0
  }

  /**
   * The result of a shell command: every device named `selected` runs it in
   * bridge order, and the output of the last one whose run did not throw is
   * returned. `outputs[k]` is what device k printed, none when its run threw.
   * Nothing is run, and null is returned, when the command is not allowed.
   */
  method ExecuteShellCommand(userAction: bool, selectedIndex: int, selected: string,
                             devs: seq<string>, outputs: seq<Option<string>>) returns (res: Option<string>)
    requires |outputs| == |devs|
    ensures res.None? <==>
      !ShellCommandAllowed(userAction, selectedIndex) ||
      forall k :: 0 <= k < |devs| && devs[k] == selected ==> outputs[k].None?
    ensures res.Some? ==> exists k :: (0 <= k < |devs| && devs[k] == selected && outputs[k] == res &&
      forall j :: k < j < |devs| && devs[j] == selected ==> outputs[j].None?)
  {
    if !userAction {
      return None;
    }
    if selectedIndex == 0 {
      return None;
    }
    res := None;
    var last := -1;
    var i := 0;
    while i < |devs|
      invariant 0 <= i <= |devs|
      invariant -1 <= last < i
      invariant res.None? <==> last == -1
      invariant last == -1 ==> forall k :: 0 <= k < i && devs[k] == selected ==> outputs[k].None?
      invariant last != -1 ==> devs[last] == selected && outputs[last] == res
      invariant forall j :: last < j < i && devs[j] == selected ==> outputs[j].None?
    {
      if devs[i] == selected && outputs[i].Some? {
        res := outputs[i];
        last := i;
      }
      i := i + 1;
    }
  }
}
