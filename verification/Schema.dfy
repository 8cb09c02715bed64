/** Field metadata for default-value removal (schema.rs and schema_types.rs): the messages
    reachable from an agent card, with their fields. */
module Schema {
  import opened Results

  /** Only `Implicit` fields are ever removed; the other three differ in the schema alone. */
  datatype Presence = Required | Optional | Oneof | Implicit

  datatype Shape = Single | Repeated | Keyed

  datatype Kind = Text | Flag | Numeric | Enumeration | Struct | Message(name: MessageName)

  datatype Spec = Spec(name: string, presence: Presence, shape: Shape, kind: Kind)

  datatype MessageName =
    | AgentCard
    | AgentInterface
    | AgentProvider
    | AgentCapabilities
    | SecurityScheme
    | SecurityRequirement
    | AgentSkill
    | AgentCardSignature
    | AgentExtension
    | APIKeySecurityScheme
    | HTTPAuthSecurityScheme
    | OAuth2SecurityScheme
    | OpenIdConnectSecurityScheme
    | MutualTlsSecurityScheme
    | StringList
    | OAuthFlows
    | AuthorizationCodeOAuthFlow
    | ClientCredentialsOAuthFlow
    | ImplicitOAuthFlow
    | PasswordOAuthFlow
    | DeviceCodeOAuthFlow

  function Fields(message: MessageName): seq<Spec> {
    match message
    case AgentCard => [
      Spec("name", Required, Single, Text),
      Spec("description", Required, Single, Text),
      Spec("supportedInterfaces", Required, Repeated, Message(AgentInterface)),
      Spec("provider", Implicit, Single, Message(AgentProvider)),
      Spec("version", Required, Single, Text),
      Spec("documentationUrl", Optional, Single, Text),
      Spec("capabilities", Required, Single, Message(AgentCapabilities)),
      Spec("securitySchemes", Implicit, Keyed, Message(SecurityScheme)),
      Spec("securityRequirements", Implicit, Repeated, Message(SecurityRequirement)),
      Spec("defaultInputModes", Required, Repeated, Text),
      Spec("defaultOutputModes", Required, Repeated, Text),
      Spec("skills", Required, Repeated, Message(AgentSkill)),
      Spec("signatures", Implicit, Repeated, Message(AgentCardSignature)),
      Spec("iconUrl", Optional, Single, Text)]
    case AgentInterface => [
      Spec("url", Required, Single, Text),
      Spec("protocolBinding", Required, Single, Text),
      Spec("tenant", Implicit, Single, Text),
      Spec("protocolVersion", Required, Single, Text)]
    case AgentProvider => [
      Spec("url", Required, Single, Text),
      Spec("organization", Required, Single, Text)]
    case AgentCapabilities => [
      Spec("streaming", Optional, Single, Flag),
      Spec("pushNotifications", Optional, Single, Flag),
      Spec("extensions", Implicit, Repeated, Message(AgentExtension)),
      Spec("extendedAgentCard", Optional, Single, Flag)]
    case SecurityScheme => [
      Spec("apiKeySecurityScheme", Oneof, Single, Message(APIKeySecurityScheme)),
      Spec("httpAuthSecurityScheme", Oneof, Single, Message(HTTPAuthSecurityScheme)),
      Spec("oauth2SecurityScheme", Oneof, Single, Message(OAuth2SecurityScheme)),
      Spec("openIdConnectSecurityScheme", Oneof, Single, Message(OpenIdConnectSecurityScheme)),
      Spec("mtlsSecurityScheme", Oneof, Single, Message(MutualTlsSecurityScheme))]
    case SecurityRequirement => [
      Spec("schemes", Implicit, Keyed, Message(StringList))]
    case AgentSkill => [
      Spec("id", Required, Single, Text),
      Spec("name", Required, Single, Text),
      Spec("description", Required, Single, Text),
      Spec("tags", Required, Repeated, Text),
      Spec("examples", Implicit, Repeated, Text),
      Spec("inputModes", Implicit, Repeated, Text),
      Spec("outputModes", Implicit, Repeated, Text),
      Spec("securityRequirements", Implicit, Repeated, Message(SecurityRequirement))]
    case AgentCardSignature => [
      Spec("protected", Required, Single, Text),
      Spec("signature", Required, Single, Text),
      Spec("header", Implicit, Single, Struct)]
    case AgentExtension => [
      Spec("uri", Implicit, Single, Text),
      Spec("description", Implicit, Single, Text),
      Spec("required", Implicit, Single, Flag),
      Spec("params", Implicit, Single, Struct)]
    case APIKeySecurityScheme => [
      Spec("description", Implicit, Single, Text),
      Spec("location", Required, Single, Text),
      Spec("name", Required, Single, Text)]
    case HTTPAuthSecurityScheme => [
      Spec("description", Implicit, Single, Text),
      Spec("scheme", Required, Single, Text),
      Spec("bearerFormat", Implicit, Single, Text)]
    case OAuth2SecurityScheme => [
      Spec("description", Implicit, Single, Text),
      Spec("flows", Required, Single, Message(OAuthFlows)),
      Spec("oauth2MetadataUrl", Implicit, Single, Text)]
    case OpenIdConnectSecurityScheme => [
      Spec("description", Implicit, Single, Text),
      Spec("openIdConnectUrl", Required, Single, Text)]
    case MutualTlsSecurityScheme => [
      Spec("description", Implicit, Single, Text)]
    case StringList => [
      Spec("list", Implicit, Repeated, Text)]
    case OAuthFlows => [
      Spec("authorizationCode", Oneof, Single, Message(AuthorizationCodeOAuthFlow)),
      Spec("clientCredentials", Oneof, Single, Message(ClientCredentialsOAuthFlow)),
      Spec("implicit", Oneof, Single, Message(ImplicitOAuthFlow)),
      Spec("password", Oneof, Single, Message(PasswordOAuthFlow)),
      Spec("deviceCode", Oneof, Single, Message(DeviceCodeOAuthFlow))]
    case AuthorizationCodeOAuthFlow => [
      Spec("authorizationUrl", Required, Single, Text),
      Spec("tokenUrl", Required, Single, Text),
      Spec("refreshUrl", Implicit, Single, Text),
      Spec("scopes", Required, Keyed, Text),
      Spec("pkceRequired", Implicit, Single, Flag)]
    case ClientCredentialsOAuthFlow => [
      Spec("tokenUrl", Required, Single, Text),
      Spec("refreshUrl", Implicit, Single, Text),
      Spec("scopes", Required, Keyed, Text)]
    case ImplicitOAuthFlow => [
      Spec("authorizationUrl", Implicit, Single, Text),
      Spec("refreshUrl", Implicit, Single, Text),
      Spec("scopes", Implicit, Keyed, Text)]
    case PasswordOAuthFlow => [
      Spec("tokenUrl", Implicit, Single, Text),
      Spec("refreshUrl", Implicit, Single, Text),
      Spec("scopes", Implicit, Keyed, Text)]
    case DeviceCodeOAuthFlow => [
      Spec("deviceAuthorizationUrl", Required, Single, Text),
      Spec("tokenUrl", Required, Single, Text),
      Spec("refreshUrl", Implicit, Single, Text),
      Spec("scopes", Required, Keyed, Text)]
  }

  function Lookup(fields: seq<Spec>, name: string): (r: Option<Spec>)
    ensures r.Some? ==> r.value in fields && r.value.name == name
  {
    if fields == [] then None else if fields[0].name == name then Some(fields[0]) else Lookup(fields[1..], name)
  }

  /** `field` of schema_types.rs. */
  function FieldOf(message: MessageName, name: string): Option<Spec> {
    Lookup(Fields(message), name)
  }

  /** How deep messages can nest below `message`. */
  function Rank(message: MessageName): (r: nat)
    ensures r <= 4
  {
    match message
    case AgentCard => 4
    case SecurityScheme => 3
    case AgentSkill => 2
    case OAuth2SecurityScheme => 2
    case AgentCapabilities => 1
    case SecurityRequirement => 1
    case OAuthFlows => 1
    case _ => 0
  }

  predicate Nests(message: MessageName, f: Spec) {
    f.kind.Message? ==> Rank(f.kind.name) < Rank(message)
  }

  lemma CardFieldNests(i: nat)
    requires i < |Fields(AgentCard)|
    ensures Nests(AgentCard, Fields(AgentCard)[i])
  {
  }

  lemma SchemeFieldNests(message: MessageName, i: nat)
    requires message in {SecurityScheme, OAuth2SecurityScheme, OAuthFlows} && i < |Fields(message)|
    ensures Nests(message, Fields(message)[i])
  {
  }

  lemma SkillFieldNests(message: MessageName, i: nat)
    requires message in {AgentSkill, AgentCapabilities, SecurityRequirement} && i < |Fields(message)|
    ensures Nests(message, Fields(message)[i])
  {
  }

  /** The messages of rank 0 hold no messages. */
  lemma LeafFieldNests(message: MessageName, i: nat)
    requires Rank(message) == 0 && i < |Fields(message)|
    ensures !Fields(message)[i].kind.Message?
  {
  }

  lemma FieldNests(message: MessageName, i: nat)
    requires i < |Fields(message)|
    ensures Nests(message, Fields(message)[i])
  {
    hide Fields;
    match message
    case AgentCard => CardFieldNests(i);
    case SecurityScheme => SchemeFieldNests(message, i);
    case OAuth2SecurityScheme => SchemeFieldNests(message, i);
    case OAuthFlows => SchemeFieldNests(message, i);
    case AgentSkill => SkillFieldNests(message, i);
    case AgentCapabilities => SkillFieldNests(message, i);
    case SecurityRequirement => SkillFieldNests(message, i);
    case _ => LeafFieldNests(message, i);
  }

  /** No message holds itself, however indirectly. */
  lemma SchemaIsAcyclic(message: MessageName, name: string)
    ensures FieldOf(message, name).Some? ==> Nests(message, FieldOf(message, name).value)
  {
    hide Fields, Nests;
    if FieldOf(message, name).Some? {
      var i :| 0 <= i < |Fields(message)| && Fields(message)[i] == FieldOf(message, name).value;
      FieldNests(message, i);
    }
  }
}
