/**
 * The icon picker's value codec: how the committed form value is read into an
 * icon record, how the provisional selection is written back on confirm, and
 * the pure rules behind the modal's selection and category listing.
 */
module IconCodec {
  import opened Wrappers
  import opened SvgText

  /**
   * An icon as the picker handles it (`IconChecked`, and the catalog's icon
   * entries). `id` is taken to be a string, possibly empty; a missing id,
   * which would print as `undefined` and compare with `===` unlike `""`, is
   * not modelled. `name` and `svg` are optional. `extra` stands for any
   * further properties, which object spreads carry along unchanged.
   */
  datatype Icon = Icon(id: string, name: Option<string>, svg: Option<string>, extra: map<string, string>)

  /** The committed form value: absent (`undefined`/`null`), SVG markup, or a structured icon. */
  datatype FormValue = Missing | Text(text: string) | Object(icon: Icon)

  /** One category of the external catalog. */
  datatype Group = Group(groupId: string, name: string, children: seq<Icon>)

  /** JavaScript truthiness of a form value. */
  predicate Truthy(v: FormValue) {
    match v
    case Missing => false
    case Text(s) => s != ""
    case Object(_) => true
  }

  const NameMarker: string := "data-name=\""
  const IdMarker: string := "data-id=\""
  const WidthMarker: string := "width=\""
  const HeightMarker: string := "height=\""
  const SvgTag: string := "<svg"
  /** The prefix a structured committed value carries on its `id`. */
  const SvgPrefix: string := "svg-"

  /** True for a non-empty string: the test `x || y` makes on a string `x`. */
  predicate NonEmpty(x: Option<string>) {
    x.Some? && x.value != ""
  }

  /** `getSvgName`: the `data-name` attribute of markup; `name || id || ''` of an object. */
  function GetSvgName(v: FormValue): (r: string)
    ensures v.Text? ==> forall p: nat, q: nat ::
      FirstQuoted(v.text, NameMarker, p, q) ==> r == v.text[p + |NameMarker|..q]
    ensures v.Text? && (forall p: nat, q: nat :: !Quoted(v.text, NameMarker, p, q)) ==> r == ""
    ensures v.Object? && NonEmpty(v.icon.name) ==> r == v.icon.name.value
    ensures v.Object? && !NonEmpty(v.icon.name) ==> r == v.icon.id
    ensures v.Missing? ==> r == ""
  {
    match v
    case Missing => ""
    case Text(s) => Capture(s, NameMarker)
    case Object(icon) => if NonEmpty(icon.name) then icon.name.value else icon.id
  }

  /** `getSvgId`: the `data-id` attribute of markup; `id || ''` of an object. */
  function GetSvgId(v: FormValue): (r: string)
    ensures v.Text? ==> forall p: nat, q: nat ::
      FirstQuoted(v.text, IdMarker, p, q) ==> r == v.text[p + |IdMarker|..q]
    ensures v.Text? && (forall p: nat, q: nat :: !Quoted(v.text, IdMarker, p, q)) ==> r == ""
    ensures v.Object? ==> r == v.icon.id
    ensures v.Missing? ==> r == ""
  {
    match v
    case Missing => ""
    case Text(s) => Capture(s, IdMarker)
    case Object(icon) => icon.id
  }

  /**
   * `getValueBySvg`: nothing for a falsy value; for markup, its `data-name`
   * and `data-id` with the markup stripped of `'`; for an object, a copy whose
   * `svg` alone is stripped of `'`.
   */
  function GetValueBySvg(v: FormValue): (r: Option<Icon>)
    ensures r.None? <==> !Truthy(v)
    ensures r.Some? && r.value.svg.Some? ==> '\'' !in r.value.svg.value
    ensures v.Object? ==> (r.Some? && r.value.id == v.icon.id && r.value.name == v.icon.name
                           && r.value.extra == v.icon.extra && r.value.svg.Some? == v.icon.svg.Some?)
    ensures v.Object? && v.icon.svg.Some? ==> r.value.svg == Some(RemoveAll(v.icon.svg.value, '\''))
    ensures v.Text? && Truthy(v) ==> (r.Some? && r.value.name == Some(GetSvgName(v))
                                      && r.value.id == GetSvgId(v) && r.value.svg == Some(RemoveAll(v.text, '\''))
                                      && r.value.extra == map[])
  {
    match v
    case Missing => None
    case Object(icon) =>
      Some(icon.(svg := if icon.svg.Some? then Some(RemoveAll(icon.svg.value, '\'')) else None))
    case Text(s) =>
      if s == "" then None
      else Some(Icon(GetSvgId(v), Some(GetSvgName(v)), Some(RemoveAll(s, '\'')), map[]))
  }

  /** What a template literal `${x}` writes for an optional string. */
  function Interpolated(x: Option<string>): string {
    if x.Some? then x.value else "undefined"
  }

  /** The replacement text handed to `replace` on confirm: the tag with both attributes. */
  function SvgAttributes(name: string, id: string): string {
    "<svg data-name=\"" + name + "\" data-id=\"" + id + "\""
  }

  /** `(checkedIcon && checkedIcon.svg) || ''`. */
  function CheckedSvg(checked: Option<Icon>): string {
    if checked.Some? && checked.value.svg.Some? then checked.value.svg.value else ""
  }

  /**
   * Confirm with `returnSvg`, first step: the checked icon's markup with its
   * first `<svg` replaced by `<svg data-name="N" data-id="I"`, where a missing
   * name (or icon) is written `undefined`.
   */
  function Annotate(checked: Option<Icon>): (r: string)
    ensures CheckedSvg(checked) == "" ==> r == ""
    ensures checked.Some? && '$' !in Interpolated(checked.value.name) && '$' !in checked.value.id ==>
      forall k: nat :: FirstOccurrence(CheckedSvg(checked), SvgTag, k) ==>
        r == CheckedSvg(checked)[..k] + SvgAttributes(Interpolated(checked.value.name), checked.value.id)
          + CheckedSvg(checked)[k + |SvgTag|..]
    ensures (forall k: nat :: !OccursAt(CheckedSvg(checked), SvgTag, k)) ==> r == CheckedSvg(checked)
  {
    var name := if checked.Some? then Interpolated(checked.value.name) else "undefined";
    var id := if checked.Some? then checked.value.id else "undefined";
    var attributes := SvgAttributes(name, id);
    assert '$' !in name && '$' !in id ==> '$' !in attributes;
    ReplaceFirst(CheckedSvg(checked), SvgTag, attributes)
  }

  /** `noSize`: the first `width="…"` removed, then the first `height="…"` of what remains. */
  function StripSize(s: string): (r: string)
    ensures forall w :: FirstDeleted(s, WidthMarker, w) ==> FirstDeleted(w, HeightMarker, r)
  {
    var w := DeleteFirstQuoted(s, WidthMarker);
    assert forall w' :: FirstDeleted(s, WidthMarker, w') ==> w' == w by {
      forall w' | FirstDeleted(s, WidthMarker, w') ensures w' == w {
        FirstDeletedUnique(s, WidthMarker, w, w');
      }
    }
    DeleteFirstQuoted(w, HeightMarker)
  }

  /** The string `handleConfirm` emits in `returnSvg` mode: the annotated markup, stripped of its size with `noSize`. */
  function EncodeSvg(checked: Option<Icon>, noSize: bool): (r: string)
    ensures checked.None? ==> r == ""
    ensures r == (if noSize then StripSize(Annotate(checked)) else Annotate(checked))
  {
    var annotated := Annotate(checked);
    if noSize then StripSize(annotated) else annotated
  }

  /**
   * The value `handleConfirm` emits without `returnSvg`: `''` when nothing
   * with an id is checked, else the checked icon with `svg-` before its id.
   */
  function EncodeStructured(checked: Option<Icon>): (r: FormValue)
    ensures r == Text("") <==> checked.None? || checked.value.id == ""
    ensures r.Text? || r.Object?
    ensures r.Object? ==> (r.icon.id == SvgPrefix + checked.value.id && r.icon.name == checked.value.name
                           && r.icon.svg == checked.value.svg && r.icon.extra == checked.value.extra)
  {
    if checked.Some? && checked.value.id != "" then
      Object(checked.value.(id := SvgPrefix + checked.value.id))
    else Text("")
  }

  /** `String(id).replace(/^svg-/, '')`: one leading `svg-` removed, nothing else. */
  function StripSvgPrefix(id: string): (r: string)
    ensures SvgPrefix <= id ==> SvgPrefix + r == id
    ensures !(SvgPrefix <= id) ==> r == id
  {
    if SvgPrefix <= id then id[|SvgPrefix|..] else id
  }

  /**
   * The provisional selection `toggleModel(isShow)` seeds from the committed
   * value: markup is decoded first, an object is taken as it is; with a
   * truthy id the copy gets its id without a leading `svg-`, otherwise null.
   */
  function ReopenSelection(value: FormValue, isShow: bool): (r: Option<Icon>)
    ensures !isShow || value.Missing? ==> r.None?
    ensures isShow && value.Object? ==> (r.Some? <==> value.icon.id != "")
    ensures isShow && value.Object? && r.Some? ==>
      r.value == value.icon.(id := StripSvgPrefix(value.icon.id))
    ensures isShow && value.Text? ==> (r.Some? <==> GetSvgId(value) != "")
    ensures isShow && value.Text? && r.Some? ==> (r.value.id == StripSvgPrefix(GetSvgId(value))
                                                  && r.value.name == Some(GetSvgName(value))
                                                  && r.value.svg == Some(RemoveAll(value.text, '\''))
                                                  && r.value.extra == map[])
  {
    var decoded := if value.Text? then GetValueBySvg(value) else if value.Object? then Some(value.icon) else None;
    if isShow && decoded.Some? && decoded.value.id != "" then
      Some(decoded.value.(id := StripSvgPrefix(decoded.value.id)))
    else None
  }

  /** `handleClickIconInModal`: clicking the selected id deselects, any other icon becomes the selection. */
  function ClickIcon(selection: Option<Icon>, icon: Icon): (r: Option<Icon>)
    ensures r.None? <==> selection.Some? && selection.value.id == icon.id
    ensures r.Some? ==> r.value == icon
  {
    if selection.Some? && selection.value.id == icon.id then None else Some(icon)
  }

  /**
   * `getIconsByType`: the active category's icons, `[]` for an empty catalog.
   * An index past a non-empty catalog makes the source read `children` of
   * `undefined` and throw; that is `None` here.
   */
  function IconsByType(catalog: seq<Group>, index: nat): (r: Option<seq<Icon>>)
    ensures catalog == [] ==> r == Some([])
    ensures catalog != [] ==> (r.Some? <==> index < |catalog|)
    ensures catalog != [] && r.Some? ==> r.value == catalog[index].children
  {
    if catalog == [] then Some([])
    else if index < |catalog| then Some(catalog[index].children)
    else None
  }

  // ---------------------------------------------------------------------
  // Properties

  /** Confirming in structured mode and reopening gives back the selection with its catalog id. */
  lemma StructuredRoundTrip(icon: Icon)
    requires icon.id != ""
    ensures ReopenSelection(EncodeStructured(Some(icon)), true) == Some(icon)
  {
    var committed := EncodeStructured(Some(icon));
    assert committed.icon.id == SvgPrefix + icon.id;
    assert StripSvgPrefix(SvgPrefix + icon.id) == icon.id by {
      assert SvgPrefix <= SvgPrefix + icon.id;
    }
  }

  /** Only a leading `svg-` is stripped, and only once. */
  lemma StripOnlyLeading()
    ensures StripSvgPrefix("svg-svg-home") == "svg-home"
    ensures StripSvgPrefix("home-svg-") == "home-svg-"
  {
    assert SvgPrefix <= "svg-svg-home";
    assert !(SvgPrefix <= "home-svg-") by {
      assert "home-svg-"[0] != SvgPrefix[0];
    }
  }

  /** Clicking one icon twice ends with no selection exactly when the selection did not already have its id. */
  lemma ClickTwice(selection: Option<Icon>, icon: Icon)
    ensures ClickIcon(ClickIcon(selection, icon), icon).None? <==>
      !(selection.Some? && selection.value.id == icon.id)
    ensures selection.None? ==> ClickIcon(ClickIcon(selection, icon), icon) == None
  {
  }

  /** Markup without the attributes decodes to an empty name and id. */
  lemma DecodeWithoutAttributes(s: string)
    requires s != ""
    requires forall j: nat :: !OccursAt(s, NameMarker, j) && !OccursAt(s, IdMarker, j)
    ensures GetValueBySvg(Text(s)) == Some(Icon("", Some(""), Some(RemoveAll(s, '\'')), map[]))
  {
    assert forall p: nat, q: nat :: !Quoted(s, NameMarker, p, q);
    assert forall p: nat, q: nat :: !Quoted(s, IdMarker, p, q);
  }

  /**
   * Attribute text that the markup carries through unchanged and reads back
   * whole: no quote, `$` or line terminator, and no `=` right before the
   * closing quote (a name ending in `data-id=` would hold a `data-id="`).
   */
  predicate PlainAttribute(t: string) {
    (forall i :: 0 <= i < |t| ==> t[i] != '"' && t[i] != '$' && !IsLineTerminator(t[i]))
    && (t == [] || t[|t| - 1] != '=')
  }

  /** The only `="` pairs of the inserted tag are those of its two attributes. */
  lemma EqualsBeforeQuote(name: string, id: string, i: nat)
    requires PlainAttribute(name) && PlainAttribute(id)
    requires i + 1 < |SvgAttributes(name, id)|
    ensures SvgAttributes(name, id)[i] == '=' && SvgAttributes(name, id)[i + 1] == '"' ==> i == 14 || i == 25 + |name|
  {
    var t := SvgAttributes(name, id);
    var head, middle := "<svg data-name=\"", "\" data-id=\"";
    assert t == head + name + middle + id + "\"";
    if i < |head| {
      assert t[i] == head[i];
    } else if i + 1 < |head| + |name| {
      assert t[i + 1] == name[i + 1 - |head|];
    } else if i < |head| + |name| {
      assert t[i] == name[|name| - 1];
    } else if i < |head| + |name| + |middle| {
      assert t[i] == middle[i - |head| - |name|];
    } else if i + 1 < |head| + |name| + |middle| + |id| {
      assert t[i + 1] == id[i + 1 - |head| - |name| - |middle|];
    } else {
      assert t[i] == id[|id| - 1];
    }
  }

  /** A marker without `<` cannot start before `k` in `s[..k] + rest` when `rest` starts with `<` and `s` has none before `k`. */
  lemma NoMarkerBefore(s: string, k: nat, rest: string, m: string, j: nat)
    requires j < k <= |s|
    requires forall j': nat :: j' < k ==> !OccursAt(s, m, j')
    requires rest != [] && rest[0] == '<' && '<' !in m
    ensures !OccursAt(s[..k] + rest, m, j)
  {
    var out := s[..k] + rest;
    if j + |m| <= k {
      assert out[j..j + |m|] == s[..k][j..j + |m|] == s[j..j + |m|];
      assert !OccursAt(s, m, j);
    } else if j + |m| <= |out| {
      assert out[j..j + |m|][k - j] == '<';
    }
  }

  /** A marker ending in `="` that lies inside the inserted tag sits at one of the tag's `="` pairs. */
  lemma MarkerInAttributes(out: string, k: nat, name: string, id: string, m: string, j: nat)
    requires PlainAttribute(name) && PlainAttribute(id)
    requires k + |SvgAttributes(name, id)| <= |out| && out[k..k + |SvgAttributes(name, id)|] == SvgAttributes(name, id)
    requires |m| >= 2 && m[|m| - 2] == '=' && m[|m| - 1] == '"'
    requires k <= j && j + |m| - 1 < k + |SvgAttributes(name, id)|
    ensures OccursAt(out, m, j) ==> j - k + |m| - 2 == 14 || j - k + |m| - 2 == 25 + |name|
  {
    var t := SvgAttributes(name, id);
    assert t[j - k + |m| - 2] == out[j + |m| - 2];
    assert t[j - k + |m| - 1] == out[j + |m| - 1];
    assert OccursAt(out, m, j) ==> out[j + |m| - 2] == m[|m| - 2] && out[j + |m| - 1] == m[|m| - 1] by {
      if OccursAt(out, m, j) {
        assert out[j..j + |m|][|m| - 2] == out[j + |m| - 2];
        assert out[j..j + |m|][|m| - 1] == out[j + |m| - 1];
      }
    }
    EqualsBeforeQuote(name, id, j - k + |m| - 2);
  }

  /** Where `Annotate` puts the tag: the emitted markup is the original with its first `<svg` replaced. */
  lemma AnnotatedLayout(icon: Icon, k: nat)
    requires icon.svg.Some? && FirstOccurrence(icon.svg.value, SvgTag, k)
    requires PlainAttribute(Interpolated(icon.name)) && PlainAttribute(icon.id)
    ensures EncodeSvg(Some(icon), false) ==
      icon.svg.value[..k] + SvgAttributes(Interpolated(icon.name), icon.id) + icon.svg.value[k + |SvgTag|..]
  {
    var name, id := Interpolated(icon.name), icon.id;
    assert '$' !in name by {
      forall i | 0 <= i < |name| ensures name[i] != '$' { }
    }
    assert '$' !in id by {
      forall i | 0 <= i < |id| ensures id[i] != '$' { }
    }
  }

  /** Where the pieces of the inserted tag sit. */
  lemma TagLayout(name: string, id: string)
    ensures |SvgAttributes(name, id)| == 28 + |name| + |id|
    ensures SvgAttributes(name, id)[7] == 't'
    ensures SvgAttributes(name, id)[5..16] == NameMarker
    ensures SvgAttributes(name, id)[16..16 + |name|] == name
    ensures SvgAttributes(name, id)[16 + |name|] == '"'
    ensures SvgAttributes(name, id)[18 + |name|..27 + |name|] == IdMarker
    ensures SvgAttributes(name, id)[27 + |name|..27 + |name| + |id|] == id
    ensures SvgAttributes(name, id)[27 + |name| + |id|] == '"'
  {
    var head, mid := "<svg data-name=\"", "\" data-id=\"";
    var t := SvgAttributes(name, id);
    var u := head + name + mid;
    assert t == u + id + "\"";
    assert t[..|u|] == u;
    assert u[..16] == head;
    assert t[5..16] == head[5..16] == NameMarker;
    assert t[7] == head[7];
    assert t[16..16 + |name|] == u[16..16 + |name|] == name;
    assert t[16 + |name|..27 + |name|] == u[16 + |name|..] == mid;
    assert t[18 + |name|..27 + |name|] == mid[2..] == IdMarker;
    assert t[27 + |name|..27 + |name| + |id|] == id;
  }

  /** The letters before the two `="` pairs of the inserted tag. */
  lemma TagLetters(name: string, id: string)
    ensures |SvgAttributes(name, id)| == 28 + |name| + |id|
    ensures SvgAttributes(name, id)[0] == '<'
    ensures SvgAttributes(name, id)[8] == 'a' && SvgAttributes(name, id)[9] == '-'
    ensures SvgAttributes(name, id)[19 + |name|] == 'a' && SvgAttributes(name, id)[20 + |name|] == 't'
  {
    var head, mid := "<svg data-name=\"", "\" data-id=\"";
    var t := SvgAttributes(name, id);
    assert t == head + name + mid + id + "\"";
    assert t[0] == head[0] && t[8] == head[8] && t[9] == head[9];
    assert t[19 + |name|] == mid[3] && t[20 + |name|] == mid[4];
  }

  /** Moving the piece `a` of a tail to the text in front of it. */
  lemma Regroup(x: string, y: string, a: string, b: string, c: string, d: string, e: string)
    ensures x + y + (a + b + c + d + e) == x + (y + a) + b + c + d + e
  {
  }

  /** Flattening a tail into the text in front of it. */
  lemma Ungroup(x: string, a: string, b: string, c: string, d: string, e: string)
    ensures x + (a + b + c + d + e) == x + a + b + c + d + e
  {
  }

  /** In markup `a + tag + c` where `a` has no `data-name="`, the inserted one is the first. */
  lemma NameAttributeFirst(a: string, name: string, id: string, c: string)
    requires forall j: nat :: !OccursAt(a, NameMarker, j)
    requires PlainAttribute(name) && PlainAttribute(id)
    ensures FirstOccurrence(a + SvgAttributes(name, id) + c, NameMarker, |a| + 5)
  {
    var t := SvgAttributes(name, id);
    var k := |a|;
    var rest := t + c;
    var out := a + rest;
    assert out == a + t + c;
    assert a[..k] == a;
    assert out[k..k + |t|] == t;
    TagLetters(name, id);
    assert rest[0] == t[0] == '<';
    forall j: nat | j < k + 5 ensures !OccursAt(out, NameMarker, j) {
      if j < k {
        NoMarkerBefore(a, k, rest, NameMarker, j);
      } else {
        MarkerInAttributes(out, k, name, id, NameMarker, j);
      }
    }
    TagLayout(name, id);
    assert out[k + 5..k + 16] == t[5..16];
  }

  /** No `data-id="` starts inside the inserted tag before its own `data-id` attribute. */
  lemma IdNotInsideName(out: string, k: nat, name: string, id: string, j: nat)
    requires PlainAttribute(name) && PlainAttribute(id)
    requires k + |SvgAttributes(name, id)| <= |out| && out[k..k + |SvgAttributes(name, id)|] == SvgAttributes(name, id)
    requires k <= j < k + 18 + |name|
    ensures !OccursAt(out, IdMarker, j)
  {
    var t := SvgAttributes(name, id);
    MarkerInAttributes(out, k, name, id, IdMarker, j);
    if j == k + 7 {
      TagLayout(name, id);
      assert out[j] == t[7];
      assert j + |IdMarker| <= |out| ==> out[j..j + |IdMarker|][0] == out[j];
    }
  }

  /** In markup `a + tag + c` where `a` has no `data-id="`, the inserted one is the first. */
  lemma IdAttributeFirst(a: string, name: string, id: string, c: string)
    requires forall j: nat :: !OccursAt(a, IdMarker, j)
    requires PlainAttribute(name) && PlainAttribute(id)
    ensures FirstOccurrence(a + SvgAttributes(name, id) + c, IdMarker, |a| + 18 + |name|)
  {
    var t := SvgAttributes(name, id);
    var k := |a|;
    var rest := t + c;
    var out := a + rest;
    assert out == a + t + c;
    assert a[..k] == a;
    assert out[k..k + |t|] == t;
    TagLetters(name, id);
    assert rest[0] == t[0] == '<';
    forall j: nat | j < k + 18 + |name| ensures !OccursAt(out, IdMarker, j) {
      if j < k {
        NoMarkerBefore(a, k, rest, IdMarker, j);
      } else {
        IdNotInsideName(out, k, name, id, j);
      }
    }
    TagLayout(name, id);
    assert out[k + 18 + |name|..k + 27 + |name|] == t[18 + |name|..27 + |name|];
  }

  /** An occurrence inside a prefix is an occurrence in the whole text. */
  lemma OccursInPrefix(s: string, k: nat, m: string, j: nat)
    requires k <= |s|
    ensures OccursAt(s[..k], m, j) ==> OccursAt(s, m, j)
  {
    if j + |m| <= k {
      assert s[..k][j..j + |m|] == s[j..j + |m|];
    }
  }

  /** The `data-name` of markup `a + tag + c` reads back as inserted, when `a` holds none. */
  lemma CaptureName(a: string, name: string, id: string, c: string)
    requires forall j: nat :: !OccursAt(a, NameMarker, j)
    requires PlainAttribute(name) && PlainAttribute(id)
    ensures Capture(a + SvgAttributes(name, id) + c, NameMarker) == name
  {
    var k, t := |a|, SvgAttributes(name, id);
    var out := a + t + c;
    NameAttributeFirst(a, name, id, c);
    TagLayout(name, id);
    assert out[k..k + |t|] == t;
    assert out[k + 16..k + 16 + |name|] == t[16..16 + |name|];
    assert out[k + 16 + |name|] == t[16 + |name|];
    CaptureOf(out, NameMarker, k + 5, name);
  }

  /** The `data-id` of markup `a + tag + c` reads back as inserted, when `a` holds none. */
  lemma CaptureId(a: string, name: string, id: string, c: string)
    requires forall j: nat :: !OccursAt(a, IdMarker, j)
    requires PlainAttribute(name) && PlainAttribute(id)
    ensures Capture(a + SvgAttributes(name, id) + c, IdMarker) == id
  {
    var k, t := |a|, SvgAttributes(name, id);
    var out := a + t + c;
    IdAttributeFirst(a, name, id, c);
    TagLayout(name, id);
    assert out[k..k + |t|] == t;
    assert out[k + 27 + |name|..k + 27 + |name| + |id|] == t[27 + |name|..27 + |name| + |id|];
    assert out[k + 27 + |name| + |id|] == t[27 + |name| + |id|];
    CaptureOf(out, IdMarker, k + 18 + |name|, id);
  }

  /** Neither size marker lies inside the inserted tag. */
  lemma SizeMarkerNotInTag(s: string, name: string, id: string, m: string, j: nat)
    requires PlainAttribute(name) && PlainAttribute(id)
    requires m == WidthMarker || m == HeightMarker
    requires |SvgAttributes(name, id)| <= |s| && s[0..|SvgAttributes(name, id)|] == SvgAttributes(name, id)
    requires j + |m| - 1 < |SvgAttributes(name, id)|
    ensures !OccursAt(s, m, j)
  {
    var t := SvgAttributes(name, id);
    assert j + |m| <= |s| ==> s[j..j + |m|][0] == s[j];
    assert s[j] == t[j];
    MarkerInAttributes(s, 0, name, id, m, j);
    TagLetters(name, id);
  }

  /** A size marker's only quote is its last character. */
  lemma SizeMarkerQuote(m: string)
    requires m == WidthMarker || m == HeightMarker
    ensures m[|m| - 1] == '"' && forall i :: 0 <= i < |m| - 1 ==> m[i] != '"'
  {
  }

  /** Nor does a size marker run across the inserted tag's closing quote. */
  lemma SizeMarkerNotAcrossTag(s: string, name: string, id: string, m: string, j: nat)
    requires m == WidthMarker || m == HeightMarker
    requires |SvgAttributes(name, id)| <= |s| && s[0..|SvgAttributes(name, id)|] == SvgAttributes(name, id)
    requires j < |SvgAttributes(name, id)| <= j + |m| - 1
    ensures !OccursAt(s, m, j)
  {
    var t := SvgAttributes(name, id);
    var e := |t| - 1;
    TagLayout(name, id);
    SizeMarkerQuote(m);
    assert s[e] == t[e] == '"';
    if j + |m| <= |s| {
      assert s[j..j + |m|][e - j] == s[e];
    }
  }

  /**
   * `replace(/M.*?"/, '')` for a size marker keeps the inserted tag at the
   * front: no `width="…"` or `height="…"` match starts inside it.
   */
  lemma DeleteKeepsTag(name: string, id: string, c: string, m: string)
    requires PlainAttribute(name) && PlainAttribute(id)
    requires m == WidthMarker || m == HeightMarker
    ensures var t, r := SvgAttributes(name, id), DeleteFirstQuoted(SvgAttributes(name, id) + c, m);
      |t| <= |r| && r == t + r[|t|..]
  {
    var t := SvgAttributes(name, id);
    var s := t + c;
    assert s[0..|t|] == t;
    forall j: nat | j < |t| ensures !OccursAt(s, m, j) {
      if j + |m| - 1 < |t| {
        SizeMarkerNotInTag(s, name, id, m, j);
      } else {
        SizeMarkerNotAcrossTag(s, name, id, m, j);
      }
    }
    match MatchQuoted(s, m, 0)
    case None =>
      assert DeleteFirstQuoted(s, m) == s;
    case Some((p, q)) =>
      assert FirstQuoted(s, m, p, q);
      assert |t| <= p;
      assert DeleteFirstQuoted(s, m) == s[..p] + s[q + 1..];
      assert (s[..p] + s[q + 1..])[..|t|] == t;
  }

  /** `noSize` keeps the inserted tag at the front of the markup, whatever follows it. */
  lemma StripKeepsTag(name: string, id: string, c: string)
    requires PlainAttribute(name) && PlainAttribute(id)
    ensures var t, r := SvgAttributes(name, id), StripSize(SvgAttributes(name, id) + c);
      |t| <= |r| && r == t + r[|t|..]
  {
    var t := SvgAttributes(name, id);
    var w := DeleteFirstQuoted(t + c, WidthMarker);
    DeleteKeepsTag(name, id, c, WidthMarker);
    DeleteKeepsTag(name, id, w[|t|..], HeightMarker);
    assert StripSize(t + c) == DeleteFirstQuoted(w, HeightMarker);
  }

  /**
   * A size attribute written after the inserted tag, with only quote-free
   * text between them, is the first match of its marker: neither the tag nor
   * that text holds a `width="` or `height="`.
   */
  lemma SizeAttributeFirst(name: string, id: string, pad: string, m: string, rest: string)
    requires PlainAttribute(name) && PlainAttribute(id)
    requires m == WidthMarker || m == HeightMarker
    requires '"' !in pad
    ensures FirstOccurrence(SvgAttributes(name, id) + pad + m + rest, m, |SvgAttributes(name, id)| + |pad|)
  {
    var t := SvgAttributes(name, id);
    var s := t + pad + m + rest;
    var p := |t| + |pad|;
    assert s[0..|t|] == t;
    assert s[p..p + |m|] == m;
    forall j: nat | j < p ensures !OccursAt(s, m, j) {
      var e := j + |m| - 1;
      if e < |t| {
        SizeMarkerNotInTag(s, name, id, m, j);
      } else {
        assert s[e] != '"' by {
          if e < p {
            assert s[e] == pad[e - |t|];
          } else {
            assert s[e] == m[e - p];
          }
        }
        NoClosingQuote(s, m, j);
      }
    }
  }

  /** `replace(/M.*?"/, '')` for a size marker after the inserted tag deletes exactly that attribute. */
  lemma SizeAttributeDeleted(name: string, id: string, pad: string, m: string, v: string, rest: string)
    requires PlainAttribute(name) && PlainAttribute(id)
    requires m == WidthMarker || m == HeightMarker
    requires '"' !in pad && Unquoted(v)
    ensures DeleteFirstQuoted(SvgAttributes(name, id) + pad + m + v + "\"" + rest, m)
      == SvgAttributes(name, id) + pad + rest
  {
    var t := SvgAttributes(name, id);
    var s := t + pad + m + v + "\"" + rest;
    var p := |t| + |pad|;
    var q := p + |m| + |v|;
    assert s == t + pad + m + (v + "\"" + rest);
    SizeAttributeFirst(name, id, pad, m, v + "\"" + rest);
    assert s[p + |m|..q] == v && s[q] == '"';
    forall k | p + |m| <= k < q ensures s[k] != '"' && !IsLineTerminator(s[k]) {
      assert s[k] == v[k - p - |m|];
    }
    assert FirstQuoted(s, m, p, q);
    assert s[..p] == t + pad && s[q + 1..] == rest;
  }

  /** Annotating markup that starts with `<svg`: the tag is replaced in front of the rest. */
  lemma AnnotatedAtStart(icon: Icon, tail: string)
    requires icon.svg == Some(SvgTag + tail)
    requires PlainAttribute(Interpolated(icon.name)) && PlainAttribute(icon.id)
    ensures Annotate(Some(icon)) == SvgAttributes(Interpolated(icon.name), icon.id) + tail
  {
    var name, id := Interpolated(icon.name), icon.id;
    var attributes := SvgAttributes(name, id);
    var svg := SvgTag + tail;
    assert Annotate(Some(icon)) == ReplaceFirst(svg, SvgTag, attributes) by {
      AnnotateUnfold(icon);
    }
    assert ReplaceFirst(svg, SvgTag, attributes) == Substitution(attributes, [], SvgTag, tail) + tail by {
      assert svg[0..|SvgTag|] == SvgTag && svg[|SvgTag|..] == tail;
      ReplaceAtStart(svg, SvgTag, attributes);
    }
    PlainWithoutDollar(name);
    PlainWithoutDollar(id);
    AttributesWithoutDollar(name, id);
  }

  /** The inserted tag has no `$` of its own. */
  lemma AttributesWithoutDollar(name: string, id: string)
    requires '$' !in name && '$' !in id
    ensures '$' !in SvgAttributes(name, id)
  {
    var head, mid, close := "<svg data-name=\"", "\" data-id=\"", "\"";
    assert SvgAttributes(name, id) == head + name + mid + id + close;
    assert '$' !in head && '$' !in mid && '$' !in close;
  }

  /** Plain attribute text holds no `$`. */
  lemma PlainWithoutDollar(t: string)
    requires PlainAttribute(t)
    ensures '$' !in t
  {
    forall i | 0 <= i < |t| ensures t[i] != '$' { }
  }

  /** `noSize` after the inserted tag: its `width` attribute goes, then its `height` attribute. */
  lemma SizeStripped(name: string, id: string, pad: string, w: string, pad': string, h: string, rest: string)
    requires PlainAttribute(name) && PlainAttribute(id)
    requires '"' !in pad && '"' !in pad' && Unquoted(w) && Unquoted(h)
    ensures StripSize(SvgAttributes(name, id) + pad + WidthMarker + w + "\"" + (pad' + HeightMarker + h + "\"" + rest))
      == SvgAttributes(name, id) + (pad + pad') + rest
  {
    var t := SvgAttributes(name, id);
    var after := pad' + HeightMarker + h + "\"" + rest;
    var annotated := t + pad + WidthMarker + w + "\"" + after;
    var narrowed := t + (pad + pad') + HeightMarker + h + "\"" + rest;
    assert DeleteFirstQuoted(annotated, WidthMarker) == narrowed by {
      SizeAttributeDeleted(name, id, pad, WidthMarker, w, after);
      Regroup(t, pad, pad', HeightMarker, h, "\"", rest);
    }
    assert DeleteFirstQuoted(narrowed, HeightMarker) == t + (pad + pad') + rest by {
      SizeAttributeDeleted(name, id, pad + pad', HeightMarker, h, rest);
    }
    assert StripSize(annotated) == DeleteFirstQuoted(DeleteFirstQuoted(annotated, WidthMarker), HeightMarker);
  }

  /**
   * `noSize` on the markup emitted for `<svg W="…" H="…"…`: the annotated tag
   * loses its `width` and its `height` attribute, and keeps the rest.
   */
  lemma NoSizeLayout(icon: Icon, pad: string, w: string, pad': string, h: string, rest: string)
    requires icon.svg == Some(SvgTag + (pad + WidthMarker + w + "\"" + (pad' + HeightMarker + h + "\"" + rest)))
    requires '"' !in pad && '"' !in pad' && Unquoted(w) && Unquoted(h)
    requires PlainAttribute(Interpolated(icon.name)) && PlainAttribute(icon.id)
    ensures EncodeSvg(Some(icon), true) == SvgAttributes(Interpolated(icon.name), icon.id) + (pad + pad') + rest
  {
    var name, id := Interpolated(icon.name), icon.id;
    var t := SvgAttributes(name, id);
    var after := pad' + HeightMarker + h + "\"" + rest;
    var annotated := t + pad + WidthMarker + w + "\"" + after;
    assert Annotate(Some(icon)) == annotated by {
      AnnotatedAtStart(icon, pad + WidthMarker + w + "\"" + after);
      Ungroup(t, pad, WidthMarker, w, "\"", after);
    }
    assert StripSize(annotated) == t + (pad + pad') + rest by {
      SizeStripped(name, id, pad, w, pad', h, rest);
    }
  }

  /** Markup `a + tag + c` whose `a` holds neither marker decodes to the tag's name and id. */
  lemma DecodeTagged(a: string, name: string, id: string, c: string)
    requires forall j: nat :: !OccursAt(a, NameMarker, j) && !OccursAt(a, IdMarker, j)
    requires PlainAttribute(name) && PlainAttribute(id)
    ensures GetValueBySvg(Text(a + SvgAttributes(name, id) + c))
      == Some(Icon(id, Some(name), Some(RemoveAll(a + SvgAttributes(name, id) + c, '\'')), map[]))
  {
    CaptureName(a, name, id, c);
    CaptureId(a, name, id, c);
  }

  /** Markup that opens with the inserted tag decodes to the tag's name and id. */
  lemma DecodeTaggedAtStart(name: string, id: string, c: string)
    requires PlainAttribute(name) && PlainAttribute(id)
    ensures GetValueBySvg(Text(SvgAttributes(name, id) + c))
      == Some(Icon(id, Some(name), Some(RemoveAll(SvgAttributes(name, id) + c, '\'')), map[]))
  {
    var empty: string := [];
    assert empty + SvgAttributes(name, id) + c == SvgAttributes(name, id) + c;
    DecodeTagged(empty, name, id, c);
  }

  /**
   * Confirming in `returnSvg` mode (without `noSize`) and decoding the emitted
   * markup gives back the icon's name and id, when the markup has a `<svg`
   * tag with no `data-name`/`data-id` before it and the name and id are
   * plain attribute text.
   */
  lemma AnnotatedRoundTrip(icon: Icon, k: nat)
    requires icon.svg.Some? && FirstOccurrence(icon.svg.value, SvgTag, k)
    requires forall j: nat :: j < k ==> !OccursAt(icon.svg.value, NameMarker, j)
    requires forall j: nat :: j < k ==> !OccursAt(icon.svg.value, IdMarker, j)
    requires PlainAttribute(Interpolated(icon.name)) && PlainAttribute(icon.id)
    ensures GetValueBySvg(Text(EncodeSvg(Some(icon), false)))
      == Some(Icon(icon.id, Some(Interpolated(icon.name)), Some(RemoveAll(EncodeSvg(Some(icon), false), '\'')), map[]))
  {
    var s := icon.svg.value;
    var name, id := Interpolated(icon.name), icon.id;
    var a, c := s[..k], s[k + |SvgTag|..];
    AnnotatedLayout(icon, k);
    forall j: nat ensures !OccursAt(a, NameMarker, j) && !OccursAt(a, IdMarker, j) {
      OccursInPrefix(s, k, NameMarker, j);
      OccursInPrefix(s, k, IdMarker, j);
    }
    CaptureName(a, name, id, c);
    CaptureId(a, name, id, c);
  }

  /**
   * Confirming in `returnSvg` mode with `noSize` on markup that opens with
   * `<svg`, whatever its attributes and their order: decoding the emitted
   * markup still gives back the icon's name and id.
   */
  lemma NoSizeRoundTrip(icon: Icon, tail: string)
    requires icon.svg == Some(SvgTag + tail)
    requires PlainAttribute(Interpolated(icon.name)) && PlainAttribute(icon.id)
    ensures GetValueBySvg(Text(EncodeSvg(Some(icon), true)))
      == Some(Icon(icon.id, Some(Interpolated(icon.name)), Some(RemoveAll(EncodeSvg(Some(icon), true), '\'')), map[]))
  {
    var name, id := Interpolated(icon.name), icon.id;
    var t := SvgAttributes(name, id);
    var out := EncodeSvg(Some(icon), true);
    assert out == StripSize(t + tail) by {
      AnnotatedAtStart(icon, tail);
    }
    StripKeepsTag(name, id, tail);
    DecodeTaggedAtStart(name, id, out[|t|..]);
  }

  // ---------------------------------------------------------------------
  // Behaviours of the source's regular expressions, on concrete markup

  /** `noSize` deletes the `width="…"` inside `stroke-width="…"`: the first match of `width="` is there. */
  lemma StrokeWidthQuirk()
    ensures StripSize("<path stroke-width=\"2\"/>") == "<path stroke-/>"
  {
    var s := "<path stroke-width=\"2\"/>";
    assert s[13..20] == WidthMarker;
    assert s[..19] == "<path stroke-width=";
    FirstByQuote(s, WidthMarker, 13);
    assert ClosesAt(s, 20, 21);
    assert FirstQuoted(s, WidthMarker, 13, 21);
    var stripped := s[..13] + s[22..];
    assert DeleteFirstQuoted(s, WidthMarker) == stripped == "<path stroke-/>";
    NoOccurrenceWithout(stripped, HeightMarker, '"');
  }

  /** `.` does not match a line break: a `data-name` value spanning lines is not read at all. */
  lemma LineBreakInName()
    ensures GetSvgName(Text("data-name=\"a\nb\"")) == ""
  {
    var s := "data-name=\"a\nb\"";
    assert QuoteEnd(s, 11) == None by {
      assert IsLineTerminator(s[12]);
    }
    assert s[1..12] != NameMarker by { assert s[1] != NameMarker[0]; }
    assert s[2..13] != NameMarker by { assert s[2] != NameMarker[0]; }
    assert s[3..14] != NameMarker by { assert s[3] != NameMarker[0]; }
    assert MatchQuoted(s, NameMarker, 0) == None;
  }

  /** `Annotate` of a checked icon, one step unfolded. */
  lemma AnnotateUnfold(icon: Icon)
    ensures Annotate(Some(icon))
      == ReplaceFirst(CheckedSvg(Some(icon)), SvgTag, SvgAttributes(Interpolated(icon.name), icon.id))
  {
  }

  /** The inserted tag, cut around a piece `mid` of the name. */
  lemma AttributesAround(pre: string, mid: string, post: string, id: string)
    ensures SvgAttributes(pre + mid + post, id)
      == ("<svg data-name=\"" + pre) + mid + (post + "\" data-id=\"" + id + "\"")
  {
  }

  /** The replacement text for a name holding `$&` puts the matched `<svg` where the name goes. */
  lemma DollarSubstitution(head: string, tail: string, before: string, after: string)
    requires '$' !in head && '$' !in tail
    ensures Substitution(head + "$&" + tail, before, SvgTag, after) == head + SvgTag + tail
  {
    var rest := "$&" + tail;
    assert head + "$&" + tail == head + rest;
    SubstitutionPlainPrefix(head, rest, before, SvgTag, after);
    MatchedPattern(tail, before, SvgTag, after);
  }

  /**
   * A name holding `$&` is not inserted literally: `replace` writes the
   * matched `<svg` in its place.
   */
  lemma DollarInName(icon: Icon, pre: string, post: string, rest: string)
    requires icon.name == Some(pre + "$&" + post) && icon.svg == Some(SvgTag + rest)
    requires '$' !in pre && '$' !in post && '$' !in icon.id
    ensures Annotate(Some(icon)) == SvgAttributes(pre + SvgTag + post, icon.id) + rest
  {
    var head, tail := "<svg data-name=\"" + pre, post + "\" data-id=\"" + icon.id + "\"";
    var attributes := SvgAttributes(pre + "$&" + post, icon.id);
    AnnotateUnfold(icon);
    assert (SvgTag + rest)[..|SvgTag|] == SvgTag && (SvgTag + rest)[|SvgTag|..] == rest;
    ReplaceAtStart(SvgTag + rest, SvgTag, attributes);
    AttributesAround(pre, "$&", post, icon.id);
    AttributesAround(pre, SvgTag, post, icon.id);
    DollarSubstitution(head, tail, [], rest);
  }
}
