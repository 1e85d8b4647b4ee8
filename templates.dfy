/** The template catalogue and the exclusion sets of the `Templating`
    command (commands/template/template.go): `toMap`, `getTemplateByName`
    and `getTemplateOptions`. */
module Templates {
  import opened Wrappers
  import opened StringOrder

  /** A configured template (`config.Template`): a name and the URL of the
      repository it is cloned from. */
  datatype Template = Template(name: string, url: string)

  /** The names of the templates, in catalogue order. */
  function Names(templates: seq<Template>): (names: seq<string>)
    ensures |names| == |templates|
    ensures forall i :: 0 <= i < |templates| ==> names[i] == templates[i].name
  {
    seq(|templates|, i requires 0 <= i < |templates| => templates[i].name)
  }

  /** No template in `templates` is called `name`. */
  predicate NoneNamed(templates: seq<Template>, name: string) {
    forall t :: t in templates ==> t.name != name
  }

  /** `toMap`: the set of the slice's elements (the source builds a
      `map[string]struct{}`, whose values carry nothing). */
  method ToMap(s: seq<string>) returns (m: set<string>)
    ensures forall x :: x in m <==> x in s
  {
    m := {};
    for i := 0 to |s|
      invariant forall x :: x in m <==> x in s[..i]
    {
      assert s[..i + 1] == s[..i] + [s[i]];
      m := m + {s[i]};
    }
    assert s[..|s|] == s;
  }

  /** `getTemplateByName`: the first template called `name`, or nothing when
      no template has that name. */
  method GetTemplateByName(templates: seq<Template>, name: string) returns (r: Option<Template>)
    ensures r.None? <==> NoneNamed(templates, name)
    ensures r.Some? ==> r.value.name == name
    ensures r.Some? ==> exists i :: (0 <= i < |templates| && templates[i] == r.value && NoneNamed(templates[..i], name))
  {
    for i := 0 to |templates|
      invariant NoneNamed(templates[..i], name)
    {
      if templates[i].name == name {
        return Some(templates[i]);
      }
      assert templates[..i + 1] == templates[..i] + [templates[i]];
    }
    assert templates[..|templates|] == templates;
    return None;
  }

  /** `getTemplateOptions`: the template names, sorted ascending, each name
      as often as it occurs in the catalogue. */
  method GetTemplateOptions(templates: seq<Template>) returns (options: seq<string>)
    ensures Sorted(options)
    ensures multiset(options) == multiset(Names(templates))
    ensures |options| == |templates|
  {
    var names: seq<string> := [];
    for i := 0 to |templates|
      invariant names == Names(templates[..i])
    {
      names := names + [templates[i].name];
    }
    assert templates[..|templates|] == templates;
    options := SortStrings(names);
    assert |multiset(options)| == |options| && |multiset(names)| == |names|;
  }
}
