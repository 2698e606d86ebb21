/** The tab switch of public/script.js:7-18: each click handler marks its tab active and
    shows its panel, and clears the other tab and hides the other panel. */
module Tabs {
  import opened Wrappers

  /** A panel's inline `style.display`: `""` shows it, `"none"` hides it. */
  datatype Display = Shown | Hidden

  datatype Tab = ChatTab | ImageTab

  /** Whether each tab carries the class `active`, and each panel's display. */
  class TabBar {
    var chatActive: bool
    var imageActive: bool
    var chatPanel: Display
    var imagePanel: Display

    /** Exactly one panel is shown, exactly one tab is active, and the active tab is the
        one whose panel is shown. */
    predicate Consistent()
      reads this
    {
      (chatActive != imageActive) && (chatPanel == Shown) == chatActive && (imagePanel == Shown) == imageActive
    }

    /** The tab that is active, when exactly one is. */
    function Selected(): (t: Option<Tab>)
      reads this
      ensures Consistent() ==> t.Some? && (t.value == ChatTab <==> chatPanel == Shown)
    {
      if chatActive && !imageActive then Some(ChatTab)
      else if imageActive && !chatActive then Some(ImageTab)
      else None
    }

    /** The page before any click: the markup may give any initial state. */
    constructor (chatActive: bool, imageActive: bool, chatPanel: Display, imagePanel: Display)
      ensures this.chatActive == chatActive && this.imageActive == imageActive
      ensures this.chatPanel == chatPanel && this.imagePanel == imagePanel
    {
      this.chatActive := chatActive;
      this.imageActive := imageActive;
      this.chatPanel := chatPanel;
      this.imagePanel := imagePanel;
    }

    /** The click handler of the chat tab, from any state. */
    method ClickChat()
      modifies this
      ensures chatActive && !imageActive && chatPanel == Shown && imagePanel == Hidden
      ensures Consistent() && Selected() == Some(ChatTab)
    {
      chatActive := true;
      imageActive := false;
      chatPanel := Shown;
      imagePanel := Hidden;
    }

    /** The click handler of the image tab, from any state. */
    method ClickImage()
      modifies this
      ensures imageActive && !chatActive && imagePanel == Shown && chatPanel == Hidden
      ensures Consistent() && Selected() == Some(ImageTab)
    {
      imageActive := true;
      chatActive := false;
      imagePanel := Shown;
      chatPanel := Hidden;
    }

    /** Clicking a tab selects it: after any click the clicked tab is the selected one. */
    method Click(t: Tab)
      modifies this
      ensures Consistent() && Selected() == Some(t)
    {
      match t {
        case ChatTab => ClickChat();
        case ImageTab => ClickImage();
      }
    }
  }
}
