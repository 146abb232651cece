/** src/cloudinary.module.ts: how `CloudinaryModule.forRoot` resolves its options and how
    `forRoot` and `forRootAsync` describe the module to the host framework. The framework's
    container (which evaluates factories and instantiates the service) is not modelled:
    registrations are plain data. */
module CloudinaryModule {
  import opened Optional

  /** A field value of an options object. JavaScript's `undefined` is a value of its own:
      object spread copies a field that is present with value `undefined`. */
  datatype OptionValue = Str(s: string) | Flag(b: bool) | Number(n: int) | Undefined

  /** An options object: its own fields by name. A field that is absent is not a key. */
  type Options = map<string, OptionValue>

  /** The record `forRoot` spreads the caller's options over. */
  const DefaultOptions: Options :=
    map["cloud_name" := Str(""), "api_key" := Str(""), "api_secret" := Str(""), "secure" := Flag(true)]

  /** `{ cloud_name: '', api_key: '', api_secret: '', secure: true, ...options }`: the
      caller's fields override the defaults, and the result has exactly the fields of
      both. */
  function ResolveOptions(options: Options): (r: Options)
    ensures r.Keys == DefaultOptions.Keys + options.Keys
    ensures forall k :: k in options ==> r[k] == options[k]
    ensures forall k :: k in DefaultOptions && k !in options ==> r[k] == DefaultOptions[k]
    ensures "secure" !in options ==> r["secure"] == Flag(true)
  {
    DefaultOptions + options
  }

  /** Resolving an already resolved record changes nothing. */
  lemma ResolveIdempotent(options: Options)
    ensures ResolveOptions(ResolveOptions(options)) == ResolveOptions(options)
  {
  }

  /** The injection token the resolved options are registered under. */
  const OptionsToken := "CLOUDINARY_MODULE_OPTIONS"

  /** The two classes a registration refers to. */
  datatype ClassRef = CloudinaryModuleClass | CloudinaryServiceClass

  /** A provider entry: a value under a token, a factory under a token with the tokens to
      inject into it, or a class that provides itself. `F` is the caller's factory and `T`
      an injection token; both are opaque here. */
  datatype Provider<F, T> =
    | ValueProvider(provide: string, useValue: Options)
    | FactoryProvider(provide: string, useFactory: F, inject: seq<T>)
    | ClassProvider(cls: ClassRef)

  /** The `DynamicModule` object; `imports` is None where the object has no such field.
      `M` is an imported module, opaque here. */
  datatype DynamicModule<F, M, T> = DynamicModule(
    moduleClass: ClassRef,
    imports: Option<seq<M>>,
    providers: seq<Provider<F, T>>,
    exports: seq<ClassRef>,
    global: bool)

  /** The argument of `forRootAsync`; a missing `imports` or `inject` is None. */
  datatype AsyncOptions<F, M, T> = AsyncOptions(imports: Option<seq<M>>, useFactory: F, inject: Option<seq<T>>)

  /** The shape both registrations share: exactly two providers, the options under their
      token and then the service; only the service is exported; the module is global. */
  predicate RegistersOneGlobalService<F, M, T>(m: DynamicModule<F, M, T>) {
    && m.moduleClass == CloudinaryModuleClass
    && |m.providers| == 2
    && !m.providers[0].ClassProvider? && m.providers[0].provide == OptionsToken
    && m.providers[1] == ClassProvider(CloudinaryServiceClass)
    && m.exports == [CloudinaryServiceClass]
    && m.global
  }

  /** `forRoot(options)`: one global service, with the options token bound to the resolved
      options and no `imports` field. */
  function ForRoot<F, M, T>(options: Options): (m: DynamicModule<F, M, T>)
    ensures RegistersOneGlobalService(m)
    ensures m.providers[0].ValueProvider? && m.providers[0].useValue == ResolveOptions(options)
    ensures m.imports.None?
  {
    DynamicModule(
      CloudinaryModuleClass,
      None,
      [ValueProvider(OptionsToken, ResolveOptions(options)), ClassProvider(CloudinaryServiceClass)],
      [CloudinaryServiceClass],
      true)
  }

  /** `forRootAsync(options)`: one global service, with the options token bound to the
      caller's factory itself (registered, not called), injected with the given tokens or
      none (`inject || []`), and importing the given modules or none (`imports || []`). */
  function ForRootAsync<F, M, T>(options: AsyncOptions<F, M, T>): (m: DynamicModule<F, M, T>)
    ensures RegistersOneGlobalService(m)
    ensures m.providers[0].FactoryProvider? && m.providers[0].useFactory == options.useFactory
    ensures options.inject.None? ==> m.providers[0].inject == []
    ensures options.inject.Some? ==> m.providers[0].inject == options.inject.value
    ensures options.imports.None? ==> m.imports == Some([])
    ensures options.imports.Some? ==> m.imports == options.imports
  {
    DynamicModule(
      CloudinaryModuleClass,
      Some(options.imports.OrElse([])),
      [FactoryProvider(OptionsToken, options.useFactory, options.inject.OrElse([])),
       ClassProvider(CloudinaryServiceClass)],
      [CloudinaryServiceClass],
      true)
  }

  /** The two registrations differ only in how the options are provided and in `imports`. */
  lemma RegistrationsAgree<F, M, T>(options: Options, async: AsyncOptions<F, M, T>)
    ensures ForRoot<F, M, T>(options).(imports := None, providers := []) ==
      ForRootAsync(async).(imports := None, providers := [])
    ensures ForRoot<F, M, T>(options).providers[1] == ForRootAsync(async).providers[1]
  {
  }
}
