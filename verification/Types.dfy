/**
 The environment specification that the operator receives (il-operator/api/v1), reduced to the
 fields that the workflow generator, the validator and the Terraform generator look at.
 */
module Types {

  datatype Option<+T> = None | Some(value: T)

  datatype Tag = Tag(name: string, value: string)

  datatype Output = Output(name: string)

  /** An absent Go string field is the empty string. */
  datatype Variable = Variable(name: string, value: string, valueFrom: string)

  datatype Component = Component(
    name: string,
    ctype: string,
    dependsOn: seq<string>,
    destroy: bool,
    destroyProtection: bool,
    autoApprove: Option<bool>,
    tags: Option<seq<Tag>>,
    variables: seq<Variable>,
    outputs: seq<Output>)

  datatype SelectiveReconcile = SelectiveReconcile(skipMode: bool, tagName: string, tagValues: seq<string>)

  datatype Environment = Environment(
    components: seq<Component>,
    autoApprove: bool,
    deleting: bool,
    teardown: bool,
    selective: Option<SelectiveReconcile>)

  const TERRAFORM := "terraform"
  const ARGOCD := "argocd"

  predicate IsTerraform(c: Component) {
    c.ctype == TERRAFORM
  }

  function Names(cs: seq<Component>): seq<string> {
    seq(|cs|, i requires 0 <= i < |cs| => cs[i].name)
  }

  ghost predicate Distinct<T>(s: seq<T>) {
    forall i, j | 0 <= i < j < |s| :: s[i] != s[j]
  }

  ghost predicate UniqueNames(cs: seq<Component>) {
    forall i, j | 0 <= i < j < |cs| :: cs[i].name != cs[j].name
  }
}
