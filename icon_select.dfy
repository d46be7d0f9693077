/**
 * The icon picker control's own state and the handlers that change it.
 * `setState` merges a partial record, so each handler states the fields it
 * sets and that the others keep their values. The host's props (`disabled`,
 * `returnSvg`, `noSize`, the committed `value`) are parameters, and each
 * `onChange` call is the handler's `emitted` result.
 */
module IconSelect {
  import opened Wrappers
  import opened IconCodec

  class IconSelectControl {
    /** Whether the picking modal is open. */
    var showModal: bool
    /** The provisional selection inside the modal. */
    var tmpCheckIconId: Option<Icon>
    /** The modal's search text. */
    var searchValue: string
    /** The position of the shown category in the catalog. */
    var activeTypeIndex: nat
    /** Whether a catalog refresh is in flight. */
    var isRefreshLoading: bool

    /** The state a mounted control starts from. */
    constructor ()
      ensures !showModal && tmpCheckIconId == None && searchValue == ""
      ensures activeTypeIndex == 0 && !isRefreshLoading
    {
      activeTypeIndex := 0;
      showModal := false;
      tmpCheckIconId := None;
      searchValue := "";
      isRefreshLoading := false;
    }

    /**
     * `toggleModel(isShow)`: with no argument, flip the modal and clear the
     * search; with one, open or close it, clear the search, and seed the
     * provisional selection from the committed value (or clear it).
     */
    method ToggleModel(value: FormValue, isShow: Option<bool>)
      modifies this
      ensures isShow.None? ==> showModal == !old(showModal) && tmpCheckIconId == old(tmpCheckIconId)
      ensures isShow.Some? ==> showModal == isShow.value && tmpCheckIconId == ReopenSelection(value, isShow.value)
      ensures searchValue == ""
      ensures activeTypeIndex == old(activeTypeIndex) && isRefreshLoading == old(isRefreshLoading)
    {
      if isShow.None? {
        showModal, searchValue := !showModal, "";
        return;
      }
      showModal := isShow.value;
      tmpCheckIconId := ReopenSelection(value, isShow.value);
      searchValue := "";
    }

    /** `handleClick`: open the modal, unless the control is disabled. */
    method HandleClick(disabled: bool, value: FormValue)
      modifies this
      ensures disabled ==> unchanged(this)
      ensures !disabled ==> showModal && tmpCheckIconId == ReopenSelection(value, true) && searchValue == ""
      ensures activeTypeIndex == old(activeTypeIndex) && isRefreshLoading == old(isRefreshLoading)
    {
      if disabled {
        return;
      }
      ToggleModel(value, Some(true));
    }

    /** `handleClear`: emit the empty string; no state changes and the modal does not open. */
    method HandleClear() returns (emitted: FormValue)
      ensures emitted == Text("") && !Truthy(emitted)
    {
      emitted := Text("");
    }

    /** `handleIconTypeClick`: show another category; nothing else changes. */
    method HandleIconTypeClick(index: nat)
      modifies this
      ensures activeTypeIndex == index
      ensures showModal == old(showModal) && tmpCheckIconId == old(tmpCheckIconId)
      ensures searchValue == old(searchValue) && isRefreshLoading == old(isRefreshLoading)
    {
      activeTypeIndex := index;
    }

    /** `handleClickIconInModal`: select the icon, or deselect it when its id is the selected one. */
    method HandleClickIconInModal(icon: Icon)
      modifies this
      ensures tmpCheckIconId == ClickIcon(old(tmpCheckIconId), icon)
      ensures showModal == old(showModal) && searchValue == old(searchValue)
      ensures activeTypeIndex == old(activeTypeIndex) && isRefreshLoading == old(isRefreshLoading)
    {
      tmpCheckIconId := if tmpCheckIconId.Some? && icon.id == tmpCheckIconId.value.id then None else Some(icon);
    }

    /** The setter under the debounced `handleSearchValueChange`. */
    method HandleSearchValueChange(text: string)
      modifies this
      ensures searchValue == text
      ensures showModal == old(showModal) && tmpCheckIconId == old(tmpCheckIconId)
      ensures activeTypeIndex == old(activeTypeIndex) && isRefreshLoading == old(isRefreshLoading)
    {
      searchValue := text;
    }

    /**
     * `handleConfirm`: emit the provisional selection in the configured
     * output mode, then close the modal.
     */
    method HandleConfirm(returnSvg: bool, noSize: bool) returns (emitted: FormValue)
      modifies this
      ensures returnSvg ==> emitted == Text(EncodeSvg(old(tmpCheckIconId), noSize))
      ensures !returnSvg ==> emitted == EncodeStructured(old(tmpCheckIconId))
      ensures !showModal && tmpCheckIconId == None && searchValue == ""
      ensures activeTypeIndex == old(activeTypeIndex) && isRefreshLoading == old(isRefreshLoading)
    {
      var checkedIcon := tmpCheckIconId;
      if returnSvg {
        var svg := Annotate(checkedIcon);
        if noSize {
          svg := StripSize(svg);
        }
        emitted := Text(svg);
      } else {
        emitted := EncodeStructured(checkedIcon);
      }
      // Closing seeds no selection whatever the committed value is.
      ToggleModel(Missing, Some(false));
    }

    /** `handleLocalUpload`: emit the uploaded icon as it is and close the modal. */
    method HandleLocalUpload(icon: string) returns (emitted: FormValue)
      modifies this
      ensures emitted == Text(icon)
      ensures !showModal && tmpCheckIconId == None && searchValue == ""
      ensures activeTypeIndex == old(activeTypeIndex) && isRefreshLoading == old(isRefreshLoading)
    {
      emitted := Text(icon);
      ToggleModel(Missing, Some(false));
    }
  }

  /**
   * Open, pick an icon, confirm in structured mode, and open again with the
   * value just committed: the modal shows the same icon selected, under its
   * catalog id.
   */
  method ConfirmThenReopen(c: IconSelectControl, icon: Icon) returns (committed: FormValue)
    requires icon.id != ""
    modifies c
    ensures committed == Object(icon.(id := SvgPrefix + icon.id))
    ensures c.showModal && c.tmpCheckIconId == Some(icon)
  {
    c.HandleClick(false, Missing);
    c.HandleClickIconInModal(icon);
    committed := c.HandleConfirm(false, false);
    c.HandleClick(false, committed);
    StructuredRoundTrip(icon);
  }

  /** Clicking one icon twice in an open modal with nothing selected leaves nothing selected. */
  method ClickSameIconTwice(c: IconSelectControl, icon: Icon)
    requires c.tmpCheckIconId == None
    modifies c
    ensures c.tmpCheckIconId == None && c.showModal == old(c.showModal)
  {
    c.HandleClickIconInModal(icon);
    c.HandleClickIconInModal(icon);
  }
}
