/** The component plumbing of src/components/mod.rs: which component a
    config group loads, and where and how `init_widget` places a widget,
    decided from the group's `type`, `class`, `fixed`, `halign`, `valign`
    and `pass-through` keys. */
module Components {
  import opened Wrappers

  /** A config value, as the config file gives it. */
  datatype ConfigValue = Str(s: string) | Bool(b: bool) | Int(i: int) | Other

  /** A component's config group: its name and its key/value pairs. */
  datatype ConfigGroup = ConfigGroup(name: string, props: map<string, ConfigValue>)

  /** The string under `key`, or `default` when there is none. */
  function GetStrOr(config: ConfigGroup, key: string, default: string): string {
    if key in config.props && config.props[key].Str? then config.props[key].s else default
  }

  /** The boolean under `key`, or `default` when there is none. */
  function GetBoolOr(config: ConfigGroup, key: string, default: bool): bool {
    if key in config.props && config.props[key].Bool? then config.props[key].b else default
  }

  // ---------------------------------------------------------------------
  // Alignment

  /** GTK's alignments. */
  datatype Align = Start | End | Center | Fill | Baseline

  /** `get_alignment`. */
  function GetAlignment(align: string): Align {
    match align
    case "start" => Start
    case "end" => End
    case "center" => Center
    case "centre" => Center
    case "fill" => Fill
    case _ => Baseline
  }

  /** The config spelling of an alignment other than `Baseline`. */
  function AlignName(a: Align): string
    requires a != Baseline
  {
    match a
    case Start => "start"
    case End => "end"
    case Center => "center"
    case Fill => "fill"
  }

  // ---------------------------------------------------------------------
  // Loading and placing a component

  /** The components the dispatch knows; every other type loads `Void`,
      which only warns that a valid type is required. */
  datatype ComponentKind = Backlight | Void

  /** `load_component`: the component chosen by the group's `type`. */
  function LoadComponent(config: ConfigGroup): ComponentKind {
    match GetStrOr(config, "type", "void")
    case "backlight" => Backlight
    case _ => Void
  }

  /** Where a widget goes: the bar's overlay (with or without pass-through of
      input) or the bar's container box. */
  datatype Placement = Overlay(passThrough: bool) | InContainer

  /** What `init_widget` does to a widget: its name, the style class it
      adds, the alignments it sets, whether it sets hexpand/vexpand, and
      where it places the widget. */
  datatype WidgetSetup = WidgetSetup(
    name: string,
    styleClass: Option<string>,
    halign: Option<Align>,
    hexpand: bool,
    valign: Option<Align>,
    vexpand: bool,
    placement: Placement)

  /** `init_widget`. */
  function InitWidget(config: ConfigGroup): WidgetSetup {
    var classStr := GetStrOr(config, "class", "void");
    var isFixed := GetBoolOr(config, "fixed", false);
    var halignStr := GetStrOr(config, "halign", "void");
    var valignStr := GetStrOr(config, "valign", "void");
    WidgetSetup(
      config.name,
      if classStr != "void" then Some(classStr) else None,
      if halignStr != "void" then Some(GetAlignment(halignStr)) else None,
      halignStr != "void" && !isFixed,
      if valignStr != "void" then Some(GetAlignment(valignStr)) else None,
      valignStr != "void" && !isFixed,
      if isFixed then Overlay(GetBoolOr(config, "pass-through", true)) else InContainer)
  }

  // ---------------------------------------------------------------------
  // Lemmas

  /** Every alignment but `Baseline` has a name that maps back to it. */
  lemma AlignmentRoundTrip(a: Align)
    requires a != Baseline
    ensures GetAlignment(AlignName(a)) == a
  {
  }

  /** "centre" is accepted as a spelling of "center"; exactly the five known
      names give an alignment other than `Baseline`. */
  lemma AlignmentNames(align: string)
    ensures GetAlignment("centre") == Center
    ensures GetAlignment(align) != Baseline <==>
              align in ["start", "end", "center", "centre", "fill"]
    ensures GetAlignment(align) != Baseline ==>
              align == AlignName(GetAlignment(align)) || align == "centre"
  {
  }

  /** The group is fixed when its `fixed` key is the boolean true. */
  predicate Fixed(config: ConfigGroup) {
    "fixed" in config.props && config.props["fixed"] == Bool(true)
  }

  /** An alignment key is set when it holds a string other than "void". */
  predicate AlignSet(config: ConfigGroup, key: string) {
    key in config.props && config.props[key].Str? && config.props[key].s != "void"
  }

  /** A widget expands along an axis exactly when that axis's alignment is
      set and the widget is not fixed; the alignment comes from
      `get_alignment`; the style class is added unless absent or "void". */
  lemma WidgetAlignment(config: ConfigGroup)
    ensures var w := InitWidget(config);
            && w.name == config.name
            && (w.halign.Some? <==> AlignSet(config, "halign"))
            && (w.valign.Some? <==> AlignSet(config, "valign"))
            && (w.hexpand <==> AlignSet(config, "halign") && !Fixed(config))
            && (w.vexpand <==> AlignSet(config, "valign") && !Fixed(config))
            && (w.halign.Some? ==> w.halign.value == GetAlignment(config.props["halign"].s))
            && (w.valign.Some? ==> w.valign.value == GetAlignment(config.props["valign"].s))
            && (w.styleClass.Some? <==> AlignSet(config, "class"))
  {
  }

  /** A fixed widget goes on the overlay, passing input through unless
      `pass-through` is the boolean false; any other widget goes in the
      container.  A group without a `fixed` key is placed in the container. */
  lemma WidgetPlacement(config: ConfigGroup)
    ensures var w := InitWidget(config);
            && (w.placement.Overlay? <==> Fixed(config))
            && (w.placement.Overlay? ==>
                  (w.placement.passThrough <==>
                     !("pass-through" in config.props && config.props["pass-through"] == Bool(false))))
            && ("fixed" !in config.props ==> w.placement == InContainer)
            && (w.placement.Overlay? ==> !w.hexpand && !w.vexpand)
  {
  }

  /** Only the type "backlight" loads a component; a missing `type` key, or
      any other value, dispatches to the `void` handler. */
  lemma LoadComponentDispatch(config: ConfigGroup)
    ensures LoadComponent(config) == Backlight <==>
              "type" in config.props && config.props["type"] == Str("backlight")
    ensures "type" !in config.props ==> LoadComponent(config) == Void
  {
  }
}
