/** The small slice of the browser's document model that the site script
    touches: anchors with a class list, panels with a display style, and
    chevron icons with a class list. */
module Dom {

  datatype Option<T> = None | Some(value: T)

  /** An anchor element. `href` is what the script reads as the link's
      target; `classes` is its class list, taken as a set of tokens. */
  class Link {
    const href: string
    const text: string
    var classes: set<string>

    constructor (href: string, text: string, classes: set<string>)
      ensures this.href == href && this.text == text && this.classes == classes
    {
      this.href := href;
      this.text := text;
      this.classes := classes;
    }
  }

  /** The element after an accordion button; only its inline `display`
      style is used. */
  class Panel {
    var display: string

    constructor (display: string)
      ensures this.display == display
    {
      this.display := display;
    }
  }

  /** The `.chev` icon inside an accordion button. */
  class Chevron {
    var classes: set<string>

    constructor (classes: set<string>)
      ensures this.classes == classes
    {
      this.classes := classes;
    }
  }

  /** `classList.toggle(token, force)`: adds the token when `force` holds and
      removes it otherwise, whatever the list held before. */
  function ForceToken(classes: set<string>, token: string, force: bool): (r: set<string>)
    ensures (token in r) == force
    ensures r - {token} == classes - {token}
  {
    if force then classes + {token} else classes - {token}
  }

  /** Whether `suffix` ends `s`, as `String.prototype.endsWith`. */
  predicate EndsWith(s: string, suffix: string)
  {
    |suffix| <= |s| && s[|s| - |suffix|..] == suffix
  }
}
