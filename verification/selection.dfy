/**
 * The selection rule of `handleTreeClick` in DndTreeEditor.react.tsx: a
 * click on the selected node clears the selection, a click on any other
 * node selects it. Which node a click lands on is DOM work and not modelled;
 * `clicked` is that node's id, `None` when none was found.
 */
module Selection {
  import opened Wrappers
  import opened Records

  function NextSelection(clicked: Option<string>, selected: Option<string>): (r: Option<string>)
    ensures !Truthy(clicked) ==> r == selected
    ensures Truthy(clicked) ==> (r == None <==> selected == clicked)
    ensures Truthy(clicked) && r != None ==> r == clicked
  {
    if !Truthy(clicked) then selected
    else if clicked == selected then None
    else clicked
  }

  /** Two clicks on the same node undo each other when it was selected, and
      leave nothing selected otherwise. */
  lemma ClickTwice(clicked: Option<string>, selected: Option<string>)
    requires Truthy(clicked)
    ensures NextSelection(clicked, NextSelection(clicked, selected)) == (if selected == clicked then clicked else None)
  {
  }
}
