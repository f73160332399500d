/** The fixed schema of configuration properties: thirteen names, each with a default value and
    a validation rule, registered once at start-up and never extended. */
module Schema {
  import opened Json
  import opened PurePath

  /** What a property's validator accepts. */
  datatype Rule =
    | Numeric                          // a float or an int
    | Text                             // a string
    | IntRange(lo: int, hi: int)       // an int within [lo, hi]
    | TextChoice(choices: seq<string>) // one of the listed strings
    | Flag                             // a bool
    | Dimensions                       // a string `<width>x<height>`, both non-zero
    | Color                            // whatever the image library parses as a color

  datatype Property = Property(default: JValue, rule: Rule)

  /** The names in registration order, which is also the order a load visits them in. */
  function Names(): (r: seq<string>)
    ensures |r| == 13
    ensures forall i, j :: 0 <= i < j < |r| ==> r[i] != r[j]
  {
    [
      "brightness", "contrast", "enabled_path", "disabled_path", "current_path",
      "preview_size", "preview_align", "crop_and_scale", "crop_size", "scale_type",
      "background_color", "preview_on_add", "preview_fill"
    ]
  }

  /** Every registered property with its default and its rule. */
  const Properties: map<string, Property> := map[
    "brightness" := Property(JFloat(0.1), Numeric),
    "contrast" := Property(JFloat(1.0), Numeric),
    "enabled_path" := Property(JString("/home/$USER/Pictures/kittyWallpapers/"), Text),
    "disabled_path" := Property(JString("/home/$USER/Pictures/kittyWallpapers/disabled/"), Text),
    "current_path" := Property(JString("/home/$USER/Pictures/kittyWallpapers/current/"), Text),
    "preview_size" := Property(JInt(512), IntRange(0, 4096)),
    "preview_align" := Property(JString("left"), TextChoice(["left", "center", "right"])),
    "crop_and_scale" := Property(JBool(true), Flag),
    "crop_size" := Property(JString("1920x1080"), Dimensions),
    "scale_type" := Property(JString("fill"), TextChoice(["fill", "fit", "none"])),
    "background_color" := Property(JString("#000000"), Color),
    "preview_on_add" := Property(JBool(true), Flag),
    "preview_fill" := Property(JBool(false), Flag)
  ]

  /** The set of registered names. */
  function Registered(): set<string>
  {
    Properties.Keys
  }

  predicate IsDigit(c: char)
  {
    '0' <= c <= '9'
  }

  /** A non-empty run of decimal digits whose value is not zero. */
  predicate NonZeroNumber(s: string)
  {
    s != [] && (forall i :: 0 <= i < |s| ==> IsDigit(s[i])) && exists i :: 0 <= i < |s| && s[i] != '0'
  }

  /** `<width>x<height>` with both numbers non-zero. */
  predicate ValidDimensions(s: string)
    ensures ValidDimensions(s) ==> |s| >= 3 && IsDigit(s[0]) && IsDigit(s[|s| - 1]) && 'x' in s
  {
    var i := RFind(s, 'x');
    i >= 0 && NonZeroNumber(s[..i]) && NonZeroNumber(s[i + 1..])
  }

  /** Two non-zero numbers joined by `x` are valid dimensions. */
  lemma DimensionsOf(w: string, h: string)
    requires NonZeroNumber(w) && NonZeroNumber(h)
    ensures ValidDimensions(w + "x" + h)
  {
    var s := w + "x" + h;
    var i := RFind(s, 'x');
    assert s[|w|] == 'x';
    assert forall k :: |w| < k < |s| ==> s[k] == h[k - |w| - 1] && IsDigit(s[k]);
    assert i == |w|;
    assert s[..i] == w && s[i + 1..] == h;
  }

  /** Runs the validator of a rule on a candidate value; `isColor` stands for the image
      library's color parser. */
  predicate Validate(rule: Rule, v: JValue, isColor: JValue -> bool)
    ensures Validate(rule, v, isColor) && !rule.Color? ==> v != JNull
    ensures Validate(rule, v, isColor) && !rule.Color? ==>
      (v.JString? <==> rule.Text? || rule.TextChoice? || rule.Dimensions?)
  {
    match rule
    case Numeric => v.JInt? || v.JFloat?
    case Text => v.JString?
    case IntRange(lo, hi) => v.JInt? && lo <= v.i <= hi
    case TextChoice(choices) => v.JString? && v.s in choices
    case Flag => v.JBool?
    case Dimensions => v.JString? && ValidDimensions(v.s)
    case Color => isColor(v)
  }

  /** Every name in the registration list is a registered property. */
  lemma NamesRegistered()
    ensures |Names()| == 13
    ensures forall n :: n in Names() ==> n in Properties
  {
  }

  /** The registration list names every registered property, each once. */
  lemma NamesCoverSchema()
    ensures forall n :: n in Properties ==> n in Names()
    ensures forall i, j :: 0 <= i < j < |Names()| ==> Names()[i] != Names()[j]
  {
  }

  /** The registry's keys are exactly the names of the registration list. */
  lemma RegistryIsNames()
    ensures Properties.Keys == set n | n in Names()
  {
    NamesRegistered();
    NamesCoverSchema();
  }

  /** No default is null. */
  lemma DefaultsNotNull()
    ensures forall n :: n in Properties ==> Properties[n].default != JNull
  {
  }

  /** Every default passes its own validator, provided the color parser accepts black. */
  lemma DefaultsPassRules(isColor: JValue -> bool)
    requires isColor(JString("#000000"))
    ensures forall n :: n in Properties ==> Validate(Properties[n].rule, Properties[n].default, isColor)
  {
    forall n | n in Properties
      ensures Validate(Properties[n].rule, Properties[n].default, isColor)
    {
      if n == "crop_size" {
        CropSizeIsValid();
      }
    }
  }

  /** The default crop size `1920x1080` is valid dimensions. */
  lemma CropSizeIsValid()
    ensures ValidDimensions("1920x1080")
  {
    assert NonZeroNumber("1920") by { assert "1920"[0] != '0'; }
    assert NonZeroNumber("1080") by { assert "1080"[0] != '0'; }
    assert RFind("1920x1080", 'x') == 4 by {
      assert "1920x1080" == "1920" + ['x'] + "1080";
      assert "1920" + ['x'] + "1080" == "1920" + (['x'] + "1080");
      RFindPrefix("1080", 'x');
      RFindAppend("1920", ['x'] + "1080", 'x');
    }
    assert "1920x1080"[..4] == "1920";
    assert "1920x1080"[5..] == "1080";
  }
}
